/**
 * Weighted undirected graphs and Newman modularity, scaled to integers.
 *
 * With m2 twice the total weight, the usual modularity is
 *   Q(P) = 1/m2 * sum over u, v in the same community of (A(u,v) - deg(u)*deg(v)/m2);
 * `Modularity` below is m2*m2*Q, an integer when the weights are.
 */
module WeightedGraph {
  import opened Sums

  type Labels = seq<nat>

  /** The value of a louvainGraph: neighbour weights, self-loop weights, weighted degrees, twice the total weight. */
  datatype Graph = Graph(n: nat, adj: seq<map<nat, nat>>, loops: seq<nat>, degree: seq<nat>, m2: nat)

  ghost predicate Linked(g: Graph, u: int, v: int) {
    0 <= u < |g.adj| && 0 <= v && v as nat in g.adj[u]
  }

  /** Weight of the edge between two different nodes; 0 when there is none. */
  ghost function Weight(g: Graph, u: int, v: int): nat {
    if Linked(g, u, v) then g.adj[u][v] else 0
  }

  ghost predicate Shaped(g: Graph) {
    && |g.adj| == |g.loops| == |g.degree| == g.n
    && (forall u, v | Linked(g, u, v) :: v < g.n && v != u && Linked(g, v, u))
    && (forall u, v :: Weight(g, u, v) == Weight(g, v, u))
  }

  ghost function Loop(g: Graph, u: int): nat {
    if 0 <= u < |g.loops| then g.loops[u] else 0
  }

  ghost function Deg(g: Graph): int -> int {
    u => if 0 <= u < |g.degree| then g.degree[u] else 0
  }

  /** The adjacency matrix; a self-loop counts twice, once for each of its ends. */
  ghost function Adjacency(g: Graph): (int, int) -> int {
    (u, v) => if u == v then 2 * Loop(g, u) else Weight(g, u, v)
  }

  ghost predicate DegreesAdd(g: Graph) {
    forall u | 0 <= u < |g.degree| :: g.degree[u] == Sum(g.n, Row(Adjacency(g), u))
  }

  /** Symmetric weights, degrees that are row sums, and m2 their total. */
  ghost predicate WellFormed(g: Graph) {
    Shaped(g) && DegreesAdd(g) && g.m2 == Sum(g.n, Deg(g))
  }

  type Network = g: Graph | WellFormed(g) ghost witness Graph(0, [], [], [], 0)

  ghost function LabelAt(p: Labels): int -> int {
    (u: int) => if 0 <= u < |p| then p[u] as int else -1
  }

  /** One label below g.n for each node. */
  ghost predicate Labelling(g: Graph, p: Labels) {
    |p| == g.n && forall u | 0 <= u < |p| :: p[u] < g.n
  }

  ghost function Singletons(n: nat): (p: Labels)
    ensures |p| == n && forall u | 0 <= u < n :: p[u] == u
  {
    seq(n, i => i)
  }

  /** What a pair of nodes adds to modularity when they share a community. */
  ghost function Bond(g: Graph): (int, int) -> int {
    (u, v) => g.m2 * Adjacency(g)(u, v) - Deg(g)(u) * Deg(g)(v)
  }

  ghost function Together(b: (int, int) -> int, p: Labels): (int, int) -> int {
    (u, v) => if LabelAt(p)(u) == LabelAt(p)(v) then b(u, v) else 0
  }

  ghost function Modularity(g: Graph, p: Labels): int {
    Sum2(g.n, g.n, Together(Bond(g), p))
  }

  /** The members of community c other than u, seen through f. */
  ghost function Others(p: Labels, u: int, c: int, f: int -> int): int -> int {
    v => if v != u && LabelAt(p)(v) == c then f(v) else 0
  }

  /** Total edge weight between u and the other members of c. */
  ghost function WeightTo(g: Graph, p: Labels, u: int, c: int): int {
    Sum(g.n, Others(p, u, c, Row(Adjacency(g), u)))
  }

  /** Sum of the degrees of the other members of c. */
  ghost function TotalWithout(g: Graph, p: Labels, u: int, c: int): int {
    Sum(g.n, Others(p, u, c, Deg(g)))
  }

  /** m2 times the gain of u towards c: what u's membership of c is worth to modularity, halved. */
  ghost function Score(g: Graph, p: Labels, u: int, c: int): int {
    g.m2 * WeightTo(g, p, u, c) - TotalWithout(g, p, u, c) * Deg(g)(u)
  }

  lemma ScoreIsBond(g: Graph, p: Labels, u: int, c: int)
    ensures Score(g, p, u, c) == Sum(g.n, Others(p, u, c, Row(Bond(g), u)))
  {
    var w, d, b := Others(p, u, c, Row(Adjacency(g), u)), Others(p, u, c, Deg(g)), Others(p, u, c, Row(Bond(g), u));
    var m2, deg := g.m2, -Deg(g)(u);
    assert Sum(g.n, b) == m2 * Sum(g.n, w) + deg * Sum(g.n, d) by {
      forall x | 0 <= x < g.n ensures b(x) == m2 * w(x) + deg * d(x) {
        OthersBondIs(g, p, u, c, x);
      }
      SumLinear(g.n, m2, w, deg, d, b);
    }
    Rearranged(g.m2, WeightTo(g, p, u, c), Deg(g)(u), TotalWithout(g, p, u, c));
  }

  lemma OthersBondIs(g: Graph, p: Labels, u: int, c: int, x: int)
    ensures Others(p, u, c, Row(Bond(g), u))(x)
      == g.m2 * Others(p, u, c, Row(Adjacency(g), u))(x) + -Deg(g)(u) * Others(p, u, c, Deg(g))(x)
  {
    if x != u && LabelAt(p)(x) == c {
      BondIs(g, u, x);
    } else {
      assert Others(p, u, c, Deg(g))(x) == 0;
    }
  }

  lemma Rearranged(m: int, w: int, d: int, t: int)
    ensures m * w + -d * t == m * w - t * d
  {
  }

  lemma BondIs(g: Graph, u: int, v: int)
    ensures Row(Bond(g), u)(v) == g.m2 * Row(Adjacency(g), u)(v) + -Deg(g)(u) * Deg(g)(v)
  {
  }

  /** Moving u from its community to c changes modularity by twice the difference of the scores. */
  lemma MoveChangesModularity(g: Graph, p: Labels, u: nat, c: nat)
    requires Shaped(g) && Labelling(g, p) && u < g.n
    ensures Modularity(g, p[u := c]) == Modularity(g, p) + 2 * (Score(g, p, u, c) - Score(g, p, u, p[u]))
  {
    ScoreIsBond(g, p, u, p[u]);
    ScoreIsBond(g, p, u, c);
    forall x, y | 0 <= x < g.n && 0 <= y < g.n ensures Bond(g)(x, y) == Bond(g)(y, x) {
      BondSymmetric(g, x, y);
    }
    MoveChangesBonds(g.n, Bond(g), p, u, c);
  }

  lemma BondSymmetric(g: Graph, x: nat, y: nat)
    requires Shaped(g) && x < g.n && y < g.n
    ensures Bond(g)(x, y) == Bond(g)(y, x)
  {
    assert Weight(g, x, y) == Weight(g, y, x);
    assert Adjacency(g)(x, y) == Adjacency(g)(y, x);
    Commutes(Deg(g)(x), Deg(g)(y));
  }

  lemma Commutes(a: int, b: int)
    ensures a * b == b * a
  {
  }

  lemma MoveChangesBonds(n: nat, b: (int, int) -> int, p: Labels, u: nat, c: nat)
    requires |p| == n && u < n
    requires forall x, y | 0 <= x < n && 0 <= y < n :: b(x, y) == b(y, x)
    ensures Sum2(n, n, Together(b, p[u := c])) == Sum2(n, n, Together(b, p))
      + 2 * (Sum(n, Others(p, u, c, Row(b, u))) - Sum(n, Others(p, u, p[u], Row(b, u))))
  {
    if p[u] == c { assert p[u := c] == p; return; }
    var gain := Sum(n, Shift(b, p, u, c));
    var change := x => if x == u then gain else Shift(b, p, u, c)(x);
    assert Sum2(n, n, Together(b, p[u := c])) == Sum2(n, n, Together(b, p)) + Sum(n, change) by {
      forall x: nat | x < n ensures RowSums(n, Together(b, p[u := c]))(x) == RowSums(n, Together(b, p))(x) + change(x) {
        MoveChangesRow(n, b, p, u, c, x);
      }
      SumAdd(n, RowSums(n, Together(b, p)), change, RowSums(n, Together(b, p[u := c])));
    }
    assert Sum(n, change) == 2 * gain by {
      assert Others(p, u, c, Row(b, u))(u) == 0 == Others(p, u, p[u], Row(b, u))(u);
      SumDelta(n, Shift(b, p, u, c), change, u, gain);
    }
    SumAdd(n, Shift(b, p, u, c), Others(p, u, p[u], Row(b, u)), Others(p, u, c, Row(b, u)));
  }

  /** What the pairing of u with x gains when u moves to c. */
  ghost function Shift(b: (int, int) -> int, p: Labels, u: nat, c: nat): int -> int {
    x => Others(p, u, c, Row(b, u))(x) - Others(p, u, LabelAt(p)(u), Row(b, u))(x)
  }

  /** Row u changes by the sum of the shifts; every other row changes in column u only, by its shift. */
  lemma MoveChangesRow(n: nat, b: (int, int) -> int, p: Labels, u: nat, c: nat, x: nat)
    requires |p| == n && u < n && x < n && p[u] != c
    requires forall y | 0 <= y < n :: b(x, y) == b(y, x)
    ensures Sum(n, Row(Together(b, p[u := c]), x))
      == Sum(n, Row(Together(b, p), x)) + (if x == u then Sum(n, Shift(b, p, u, c)) else Shift(b, p, u, c)(x))
  {
    var q := p[u := c];
    var before, after := Row(Together(b, p), x), Row(Together(b, q), x);
    forall y | 0 <= y < n
      ensures before(y) == if p[x] == p[y] then b(x, y) else 0
      ensures after(y) == if q[x] == q[y] then b(x, y) else 0
      ensures Shift(b, p, u, c)(y) == if y != u && p[y] == c then b(u, y) else if y != u && p[y] == p[u] then -b(u, y) else 0
    {
      assert Shift(b, p, u, c)(y) == Others(p, u, c, Row(b, u))(y) - Others(p, u, p[u], Row(b, u))(y);
    }
    if x == u {
      SumAdd(n, before, Shift(b, p, u, c), after);
    } else {
      SumDelta(n, before, after, u, Shift(b, p, u, c)(x));
    }
  }

  lemma ProductNonneg(a: int, b: int)
    requires a >= 0 && b >= 0
    ensures a * b >= 0
  {
  }

  /** Q is at most 1. */
  lemma ModularityBounded(g: Network, p: Labels)
    ensures Modularity(g, p) <= g.m2 * g.m2
  {
    forall u: nat | u < g.n ensures RowSums(g.n, Together(Bond(g), p))(u) <= Scaled(g.m2, Deg(g))(u) {
      forall v | 0 <= v < g.n ensures Row(Together(Bond(g), p), u)(v) <= Scaled(g.m2, Row(Adjacency(g), u))(v) {
        BondBounded(g, u, v);
      }
      SumMono(g.n, Row(Together(Bond(g), p), u), Scaled(g.m2, Row(Adjacency(g), u)));
      SumScale(g.n, g.m2, Row(Adjacency(g), u), Scaled(g.m2, Row(Adjacency(g), u)));
    }
    SumMono(g.n, RowSums(g.n, Together(Bond(g), p)), Scaled(g.m2, Deg(g)));
    SumScale(g.n, g.m2, Deg(g), Scaled(g.m2, Deg(g)));
  }

  lemma BondBounded(g: Graph, u: int, v: int)
    ensures Bond(g)(u, v) <= g.m2 * Adjacency(g)(u, v) && 0 <= g.m2 * Adjacency(g)(u, v)
  {
    ProductNonneg(Deg(g)(u), Deg(g)(v));
    ProductNonneg(g.m2, Adjacency(g)(u, v));
  }

  /** Modularity depends on which nodes share a label, not on the labels. */
  lemma SameKernelSameModularity(g: Graph, p: Labels, q: Labels)
    requires |p| == |q| == g.n
    requires SameKernel(p, q)
    ensures Modularity(g, p) == Modularity(g, q)
  {
    forall i, j | 0 <= i < g.n && 0 <= j < g.n ensures Together(Bond(g), p)(i, j) == Together(Bond(g), q)(i, j) {
      assert (LabelAt(p)(i) == LabelAt(p)(j)) == (LabelAt(q)(i) == LabelAt(q)(j));
    }
    Sum2Ext(g.n, g.n, Together(Bond(g), p), Together(Bond(g), q));
  }

  ghost predicate SameKernel(p: Labels, q: Labels) {
    |p| == |q| && forall u, v | 0 <= u < |p| && 0 <= v < |p| :: p[u] == p[v] <==> q[u] == q[v]
  }

  /* ---- connectedness ---- */

  /** A colouring that gives the ends of every edge the same colour. */
  ghost predicate Respects(g: Graph, colour: seq<int>) {
    |colour| == g.n == |g.adj| && forall u, v | Linked(g, u, v) :: v < g.n && colour[u] == colour[v]
  }

  /** Nodes with the same label have the same colour. */
  ghost predicate Compatible(p: Labels, colour: seq<int>) {
    |p| == |colour| && forall u, v | 0 <= u < |p| && 0 <= v < |p| && p[u] == p[v] :: colour[u] == colour[v]
  }

  /** A walk along edges. */
  ghost predicate Walk(g: Graph, w: seq<nat>) {
    && |w| > 0 && (forall i | 0 <= i < |w| :: w[i] < g.n == |g.adj|)
    && (forall i | 0 < i < |w| :: Linked(g, w[i - 1], w[i]))
  }

  ghost predicate Connected(g: Graph, u: nat, v: nat) {
    exists w: seq<nat> :: Walk(g, w) && w[0] == u && w[|w| - 1] == v
  }

  /** Nodes that no edge-respecting colouring separates are joined by a walk. */
  lemma InseparableIsConnected(g: Graph, u: nat, v: nat)
    requires Shaped(g) && u < g.n && v < g.n
    requires forall colour | Respects(g, colour) :: colour[u] == colour[v]
    ensures Connected(g, u, v)
  {
    var reached := seq(g.n, x requires 0 <= x < g.n => if Connected(g, u, x) then 1 else 0);
    forall x: nat, y: nat | Linked(g, x, y) && Connected(g, u, x) ensures Connected(g, u, y) {
      var w: seq<nat> :| Walk(g, w) && w[0] == u && w[|w| - 1] == x;
      var next: seq<nat> := w + [y];
      assert forall i | 0 <= i < |w| :: next[i] == w[i];
      assert Walk(g, next);
      assert (w + [y])[0] == u && (w + [y])[|w + [y]| - 1] == y;
    }
    assert Respects(g, reached);
    assert Walk(g, [u]);
    assert [u][0] == u && [u][|[u]| - 1] == u;
    assert reached[u] == 1;
  }

  /** A walk keeps to one colour, so connected nodes are inseparable. */
  lemma {:induction false} WalkKeepsColour(g: Graph, w: seq<nat>, colour: seq<int>)
    requires Walk(g, w) && Respects(g, colour)
    ensures colour[w[0]] == colour[w[|w| - 1]]
  {
    if |w| > 1 { WalkKeepsColour(g, w[..|w| - 1], colour); }
  }
}
