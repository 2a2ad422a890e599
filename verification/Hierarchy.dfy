/**
 * The collapsed graph, the levels of Louvain over it, and the end-to-end theorems: modularity never falls,
 * rises when any pass moves a node, and no community leaves a connected component.
 */
module Hierarchy {
  import opened Sums
  import opened WeightedGraph
  import opened LocalMoving
  import opened Aggregation

  /** Some member of c is linked to some member of d. */
  ghost predicate Touch(g: Graph, p: Labels, c: int, d: int) {
    exists u, v :: Linked(g, u, v) && LabelAt(p)(u) == c && LabelAt(p)(v) == d
  }

  lemma BlocksNonneg(g: Network, p: Labels, c: int, d: int)
    ensures Blocks(Adjacency(g), p)(c, d) >= 0
  {
    Sum2Mono(|p|, |p|, (u, v) => 0, InBlock(Adjacency(g), p, c, d));
    Sum2Zero(|p|, |p|, (u, v) => 0);
  }

  ghost function BlockWeight(g: Network, p: Labels, c: int, d: int): nat {
    BlocksNonneg(g, p, c, d);
    Blocks(Adjacency(g), p)(c, d)
  }

  ghost function DegreeOf(g: Network, p: Labels, c: int): nat {
    SumMono(g.n, x => 0, Fibre(LabelAt(p), Deg(g), c));
    SumZero(g.n, x => 0);
    Sum(g.n, Fibre(LabelAt(p), Deg(g), c))
  }

  ghost function NeighboursOf(g: Network, p: Labels, k: nat, c: nat): map<nat, nat> {
    map d: nat | d < k && d != c && Touch(g, p, c, d) :: BlockWeight(g, p, c, d)
  }

  /** Each community one node: links between communities are added up, links inside one become its self-loop. */
  ghost function CollapsedGraph(g: Network, p: Labels, k: nat): (h: Graph)
    ensures |h.adj| == |h.loops| == |h.degree| == h.n == k && h.m2 == g.m2
    ensures forall c: nat | c < k :: h.adj[c] == NeighboursOf(g, p, k, c)
    ensures forall c: nat | c < k :: h.loops[c] == BlockWeight(g, p, c, c) / 2 && h.degree[c] == DegreeOf(g, p, c)
  {
    Graph(k,
      seq(k, c requires 0 <= c < k => NeighboursOf(g, p, k, c)),
      seq(k, c requires 0 <= c < k => BlockWeight(g, p, c, c) / 2),
      seq(k, c requires 0 <= c < k => DegreeOf(g, p, c)),
      g.m2)
  }

  ghost predicate Collapsible(g: Network, p: Labels, k: nat) {
    |p| == g.n && Onto(p, k)
  }

  /* ---- the collapsed graph is a network ---- */

  lemma BlocksSymmetric(g: Network, p: Labels, c: int, d: int)
    requires |p| == g.n
    ensures BlockWeight(g, p, c, d) == BlockWeight(g, p, d, c)
  {
    SumSwap(g.n, g.n, InBlock(Adjacency(g), p, c, d));
    forall u, v | 0 <= u < g.n && 0 <= v < g.n
      ensures Flip(InBlock(Adjacency(g), p, c, d))(u, v) == InBlock(Adjacency(g), p, d, c)(u, v)
    {
      assert Weight(g, u, v) == Weight(g, v, u);
    }
    Sum2Ext(g.n, g.n, Flip(InBlock(Adjacency(g), p, c, d)), InBlock(Adjacency(g), p, d, c));
  }

  lemma NoTouchNoWeight(g: Network, p: Labels, c: int, d: int)
    requires |p| == g.n && c != d && !Touch(g, p, c, d)
    ensures BlockWeight(g, p, c, d) == 0
  {
    forall u, v | 0 <= u < g.n && 0 <= v < g.n ensures InBlock(Adjacency(g), p, c, d)(u, v) == 0 {
      if LabelAt(p)(u) == c && LabelAt(p)(v) == d { assert !Linked(g, u, v); }
    }
    Sum2Zero(g.n, g.n, InBlock(Adjacency(g), p, c, d));
  }

  lemma InnerWeightEven(g: Network, p: Labels, c: int)
    requires |p| == g.n
    ensures BlockWeight(g, p, c, c) % 2 == 0
  {
    var f := InBlock(Adjacency(g), p, c, c);
    forall u, v | 0 <= u < g.n && 0 <= v < g.n ensures f(u, v) == f(v, u) && f(u, u) % 2 == 0 {
      assert Weight(g, u, v) == Weight(g, v, u);
    }
    EvenSum(g.n, f);
  }

  /** The adjacency of the collapsed graph is the block sums of the adjacency. */
  lemma CollapsedAdjacency(g: Network, p: Labels, k: nat, c: nat, d: nat)
    requires Collapsible(g, p, k) && c < k && d < k
    ensures Adjacency(CollapsedGraph(g, p, k))(c, d) == BlockWeight(g, p, c, d)
  {
    hide BlockWeight;
    var h := CollapsedGraph(g, p, k);
    if c == d {
      InnerWeightEven(g, p, c);
    } else {
      assert Linked(h, c, d) <==> Touch(g, p, c, d);
      if !Touch(g, p, c, d) { NoTouchNoWeight(g, p, c, d); }
    }
  }

  lemma CollapsedShaped(g: Network, p: Labels, k: nat)
    requires Collapsible(g, p, k)
    ensures Shaped(CollapsedGraph(g, p, k))
  {
    hide BlockWeight, DegreeOf, CollapsedGraph;
    var h := CollapsedGraph(g, p, k);
    forall c, d | Linked(h, c, d) ensures d < k && d != c && Linked(h, d, c) {
      var u, v :| Linked(g, u, v) && LabelAt(p)(u) == c && LabelAt(p)(v) == d;
      assert Linked(g, v, u);
      assert Touch(g, p, d, c);
    }
    forall c, d ensures Weight(h, c, d) == Weight(h, d, c) {
      assert Linked(h, c, d) <==> Linked(h, d, c);
      if Linked(h, c, d) { BlocksSymmetric(g, p, c, d); }
    }
  }

  lemma CollapsedDegrees(g: Network, p: Labels, k: nat)
    requires Collapsible(g, p, k)
    ensures DegreesAdd(CollapsedGraph(g, p, k)) && g.m2 == Sum(k, Deg(CollapsedGraph(g, p, k)))
  {
    var h := CollapsedGraph(g, p, k);
    forall c: nat | c < k ensures h.degree[c] == Sum(k, Row(Adjacency(h), c)) {
      forall d: nat | d < k ensures Row(Adjacency(h), c)(d) == Row(Blocks(Adjacency(g), p), c)(d) {
        CollapsedAdjacency(g, p, k, c, d);
      }
      SumExt(k, Row(Adjacency(h), c), Row(Blocks(Adjacency(g), p), c));
      BlockRow(Adjacency(g), p, k, c);
      SumExt(g.n, Fibre(LabelAt(p), RowSums(g.n, Adjacency(g)), c), Fibre(LabelAt(p), Deg(g), c));
    }
    SumExt(k, Deg(h), FibreSums(g.n, LabelAt(p), Deg(g)));
    SumByFibre(g.n, k, LabelAt(p), Deg(g));
  }

  /** g with each community of p collapsed to one node: a network again, of the same total weight. */
  ghost function Collapse(g: Network, p: Labels, k: nat): (h: Network)
    requires Collapsible(g, p, k)
    ensures h == CollapsedGraph(g, p, k)
  {
    CollapsedShaped(g, p, k);
    CollapsedDegrees(g, p, k);
    CollapsedGraph(g, p, k)
  }

  /* ---- collapsing preserves modularity ---- */

  /** The products of degrees sum, block by block, to the products of the communities' degrees. */
  lemma DegreeProducts(g: Network, p: Labels, c: int, d: int)
    requires |p| == g.n
    ensures Blocks((u, v) => Deg(g)(u) * Deg(g)(v), p)(c, d) == DegreeOf(g, p, c) * DegreeOf(g, p, d)
  {
    var prod := (u, v) => Deg(g)(u) * Deg(g)(v);
    var inC, inD := Fibre(LabelAt(p), Deg(g), c), Fibre(LabelAt(p), Deg(g), d);
    forall u | 0 <= u < g.n ensures RowSums(g.n, InBlock(prod, p, c, d))(u) == DegreeOf(g, p, d) * inC(u) {
      forall v | 0 <= v < g.n ensures Row(InBlock(prod, p, c, d), u)(v) == inC(u) * inD(v) {
        assert InBlock(prod, p, c, d)(u, v) == if LabelAt(p)(u) == c && LabelAt(p)(v) == d then Deg(g)(u) * Deg(g)(v) else 0;
      }
      SumScale(g.n, inC(u), inD, Row(InBlock(prod, p, c, d), u));
      Commutes(inC(u), DegreeOf(g, p, d));
    }
    SumScale(g.n, DegreeOf(g, p, d), inC, RowSums(g.n, InBlock(prod, p, c, d)));
    Commutes(DegreeOf(g, p, c), DegreeOf(g, p, d));
  }

  lemma BondInBlock(g: Graph, p: Labels, c: int, d: int, u: int, v: int)
    ensures InBlock(Bond(g), p, c, d)(u, v) == g.m2 * InBlock(Adjacency(g), p, c, d)(u, v)
      + -1 * InBlock((u, v) => Deg(g)(u) * Deg(g)(v), p, c, d)(u, v)
  {
  }

  /** The bond of two communities is the sum of the bonds of their members. */
  lemma CollapsedBond(g: Network, p: Labels, k: nat, c: nat, d: nat)
    requires Collapsible(g, p, k) && c < k && d < k
    ensures Bond(Collapse(g, p, k))(c, d) == Blocks(Bond(g), p)(c, d)
  {
    var prod := (u, v) => Deg(g)(u) * Deg(g)(v);
    var inA, inP, inB := InBlock(Adjacency(g), p, c, d), InBlock(prod, p, c, d), InBlock(Bond(g), p, c, d);
    forall u, v | 0 <= u < g.n && 0 <= v < g.n ensures inB(u, v) == g.m2 * inA(u, v) + -1 * inP(u, v) {
      BondInBlock(g, p, c, d, u, v);
    }
    Sum2Linear(g.n, g.n, g.m2, inA, -1, inP, inB);
    DegreeProducts(g, p, c, d);
    CollapsedAdjacency(g, p, k, c, d);
    assert Deg(Collapse(g, p, k))(c) == DegreeOf(g, p, c) && Deg(Collapse(g, p, k))(d) == DegreeOf(g, p, d);
  }

  /** Modularity of any partition of the collapsed graph is that of the partition it induces on the nodes. */
  lemma CollapsePreservesModularity(g: Network, p: Labels, k: nat, q: Labels)
    requires Collapsible(g, p, k) && |q| == k
    ensures Modularity(Collapse(g, p, k), q) == Modularity(g, Compose(q, p))
  {
    var h := Collapse(g, p, k);
    forall c, d | 0 <= c < k && 0 <= d < k
      ensures Together(Bond(h), q)(c, d) == Together(Blocks(Bond(g), p), q)(c, d)
    {
      CollapsedBond(g, p, k, c, d);
    }
    Sum2Ext(k, k, Together(Bond(h), q), Together(Blocks(Bond(g), p), q));
    TogetherByBlocks(Bond(g), p, q);
  }

  /* ---- all levels ---- */

  lemma PassShrinks(g: Network)
    requires PassLabels(g) != Singletons(g.n)
    ensures Dense(PassLabels(g)).1 < g.n
    ensures Collapsible(g, Dense(PassLabels(g)).0, Dense(PassLabels(g)).1)
  {
    var e := PassThatMoves(g);
    UnusedLabelShrinks(PassLabels(g), g.n, e);
    DenseIsRenumbering(PassLabels(g));
  }

  /** What one community adds: m2 times the weight inside it, less the square of its degrees. */
  ghost function Contribution(g: Network, p: Labels): int -> int {
    c => g.m2 * BlockWeight(g, p, c, c) - DegreeOf(g, p, c) * DegreeOf(g, p, c)
  }

  lemma SingletonModularity(h: Network)
    ensures Modularity(h, Singletons(h.n)) == Sum(h.n, c => Bond(h)(c, c))
  {
    var n, p, t := h.n, Singletons(h.n), Together(Bond(h), Singletons(h.n));
    forall c | 0 <= c < n ensures RowSums(n, t)(c) == Bond(h)(c, c) {
      hide Bond;
      SumZero(n, x => 0);
      SumDelta(n, x => 0, Row(t, c), c, Bond(h)(c, c));
    }
    SumExt(n, RowSums(n, t), c => Bond(h)(c, c));
  }

  lemma ContributionIsBond(g: Network, p: Labels, c: nat)
    requires Labelling(g, p) && c < g.n
    ensures Contribution(g, p)(c) == Bond(Collapse(g, p, g.n))(c, c)
  {
    hide BlockWeight, DegreeOf, CollapsedGraph;
    var h := CollapsedGraph(g, p, g.n);
    CollapsedAdjacency(g, p, g.n, c, c);
    assert Deg(h)(c) == DegreeOf(g, p, c) && h.m2 == g.m2;
  }

  /** Newman's form: modularity is the sum, over the communities, of what each adds. */
  lemma ModularityByCommunity(g: Network, p: Labels)
    requires Labelling(g, p)
    ensures Modularity(g, p) == Sum(g.n, Contribution(g, p))
  {
    hide Modularity;
    var h := Collapse(g, p, g.n);
    CollapsePreservesModularity(g, p, g.n, Singletons(g.n));
    assert Compose(Singletons(g.n), p) == p;
    SingletonModularity(h);
    hide Contribution, Bond, Collapse;
    forall c | 0 <= c < g.n ensures Contribution(g, p)(c) == Bond(h)(c, c) {
      ContributionIsBond(g, p, c);
    }
    SumExt(g.n, Contribution(g, p), c => Bond(h)(c, c));
  }

  /** The labels Louvain gives: a pass, and if it moved anything, the labels of the collapsed graph pulled back. */
  ghost function LouvainLabels(g: Network): (p: Labels)
    ensures Labelling(g, p)
    decreases g.n
  {
    if PassLabels(g) == Singletons(g.n) then Singletons(g.n)
    else
      PassShrinks(g);
      var (dense, k) := Dense(PassLabels(g));
      Compose(LouvainLabels(Collapse(g, dense, k)), dense)
  }

  lemma ComposeSingletons(p: Labels, k: nat)
    requires Onto(p, k)
    ensures Compose(Singletons(k), p) == p
  {
  }

  /** The result's modularity is at least that of all singletons, and higher when the first pass moved anything. */
  lemma {:induction false} LouvainImproves(g: Network)
    ensures Modularity(g, LouvainLabels(g)) >= Modularity(g, Singletons(g.n))
    ensures PassLabels(g) != Singletons(g.n) ==> Modularity(g, LouvainLabels(g)) > Modularity(g, Singletons(g.n))
    decreases g.n
  {
    hide Modularity, Collapse;
    if PassLabels(g) != Singletons(g.n) {
      PassShrinks(g);
      var (dense, k) := Dense(PassLabels(g));
      var h := Collapse(g, dense, k);
      LouvainImproves(h);
      CollapsePreservesModularity(g, dense, k, LouvainLabels(h));
      CollapsePreservesModularity(g, dense, k, Singletons(k));
      ComposeSingletons(dense, k);
      DenseIsRenumbering(PassLabels(g));
      SameKernelSameModularity(g, PassLabels(g), dense);
      var e := PassThatMoves(g);
    }
  }

  /* ---- where the levels stop ---- */

  /** Half of what joining two communities would add to modularity. */
  ghost function BondBetween(g: Network, p: Labels, c: int, d: int): int {
    Blocks(Bond(g), p)(c, d)
  }

  /** Joining two communities changes modularity by twice the bond between them. */
  lemma JoiningChangesModularity(g: Network, p: Labels, c: nat, d: nat)
    requires |p| == g.n && c != d
    ensures Modularity(g, Joined(p, c, d)) == Modularity(g, p) + 2 * BondBetween(g, p, c, d)
  {
    JoiningAddsBlocks(Bond(g), p, c, d);
    SumSwap(g.n, g.n, InBlock(Bond(g), p, c, d));
    forall u, v | 0 <= u < g.n && 0 <= v < g.n
      ensures Flip(InBlock(Bond(g), p, c, d))(u, v) == InBlock(Bond(g), p, d, c)(u, v)
    {
      BondSymmetric(g, u, v);
    }
    Sum2Ext(g.n, g.n, Flip(InBlock(Bond(g), p, c, d)), InBlock(Bond(g), p, d, c));
  }

  /** From singletons a node's score is its bond with the other node. */
  lemma AloneScoreIsBond(g: Network, c: nat, d: nat)
    requires c < g.n && d < g.n && c != d
    ensures Score(g, Singletons(g.n), c, d) == Bond(g)(c, d)
  {
    var p := Singletons(g.n);
    ScoreIsBond(g, p, c, d);
    var others := Others(p, c, d, Row(Bond(g), c));
    forall v | 0 <= v < g.n && v != d ensures others(v) == 0 {
      assert LabelAt(p)(v) == v;
    }
    assert LabelAt(p)(d) == d;
    SumZero(g.n, v => 0);
    SumDelta(g.n, v => 0, others, d, Bond(g)(c, d));
  }

  /** At the last level no two nodes bond by more than the self-loop of either hides. */
  lemma LastLevelBonds(g: Network, c: nat, d: nat)
    requires c < g.n && d < g.n && c != d && PassLabels(g) == Singletons(g.n)
    ensures Bond(g)(c, d) <= Max(0, g.m2 * Loop(g, c))
  {
    hide Score, Modularity, PassLabels;
    PassIsLocallyOptimal(g, c, d);
    AloneScoresZero(g, c);
    AloneScoreIsBond(g, c, d);
  }

  lemma HalfOfTwice(m: int, b: int, x: int, w: int)
    requires b <= Max(0, m * x) && w == 2 * x && m >= 0 && x >= 0
    ensures 2 * b <= m * w
  {
    ProductNonneg(m, x);
  }

  lemma StopsAtLastLevel(g: Network, c: nat, d: nat)
    requires c != d && PassLabels(g) == Singletons(g.n)
    ensures 2 * BondBetween(g, Singletons(g.n), c, d) <= g.m2 * BlockWeight(g, Singletons(g.n), c, c)
  {
    hide Bond, PassLabels;
    var p := Singletons(g.n);
    SingletonBlock(Bond(g), g.n, c, d);
    SingletonBlock(Adjacency(g), g.n, c, c);
    if c < g.n && d < g.n {
      LastLevelBonds(g, c, d);
      HalfOfTwice(g.m2, Bond(g)(c, d), Loop(g, c), BlockWeight(g, p, c, c));
    } else {
      ProductNonneg(g.m2, BlockWeight(g, p, c, c));
    }
  }

  /** What communities of the collapsed graph are, in terms of the nodes. */
  lemma CollapsedBlocks(g: Network, p: Labels, k: nat, q: Labels, c: int, d: int)
    requires Collapsible(g, p, k) && |q| == k
    ensures BondBetween(Collapse(g, p, k), q, c, d) == BondBetween(g, Compose(q, p), c, d)
    ensures BlockWeight(Collapse(g, p, k), q, c, d) == BlockWeight(g, Compose(q, p), c, d)
  {
    hide Bond, Adjacency;
    var h := Collapse(g, p, k);
    forall x, y | 0 <= x < k && 0 <= y < k
      ensures Bond(h)(x, y) == Blocks(Bond(g), p)(x, y) && Adjacency(h)(x, y) == Blocks(Adjacency(g), p)(x, y)
    {
      CollapsedBond(g, p, k, x, y);
      CollapsedAdjacency(g, p, k, x, y);
    }
    BlocksExt(Bond(h), Blocks(Bond(g), p), q, c, d);
    BlocksExt(Adjacency(h), Blocks(Adjacency(g), p), q, c, d);
    BlocksOfBlocks(Bond(g), p, q, c, d);
    BlocksOfBlocks(Adjacency(g), p, q, c, d);
  }

  lemma {:induction false} BondsAtTheEnd(g: Network, c: nat, d: nat)
    requires c != d
    ensures 2 * BondBetween(g, LouvainLabels(g), c, d) <= g.m2 * BlockWeight(g, LouvainLabels(g), c, c)
    decreases g.n
  {
    hide BondBetween, BlockWeight, PassLabels, Collapse, Dense;
    if PassLabels(g) == Singletons(g.n) {
      StopsAtLastLevel(g, c, d);
    } else {
      PassShrinks(g);
      var (dense, k) := Dense(PassLabels(g));
      var h := Collapse(g, dense, k);
      BondsAtTheEnd(h, c, d);
      CollapsedBlocks(g, dense, k, LouvainLabels(h), c, d);
      CollapsedBlocks(g, dense, k, LouvainLabels(h), c, c);
    }
  }

  /**
   * Where Louvain stops: joining two final communities raises modularity by no more than m2 times the weight inside either
   * of them, and so not at all when one of them has none.
   */
  lemma LouvainStops(g: Network, c: nat, d: nat)
    requires c != d
    ensures var p := LouvainLabels(g);
      Modularity(g, Joined(p, c, d)) <= Modularity(g, p) + g.m2 * BlockWeight(g, p, c, c)
      && Modularity(g, Joined(p, c, d)) <= Modularity(g, p) + g.m2 * BlockWeight(g, p, d, d)
  {
    hide Modularity, BondBetween, BlockWeight, LouvainLabels;
    var p := LouvainLabels(g);
    BondsAtTheEnd(g, c, d);
    BondsAtTheEnd(g, d, c);
    JoiningChangesModularity(g, p, c, d);
    JoiningChangesModularity(g, p, d, c);
    JoinedEitherWay(g, p, c, d);
  }

  lemma JoinedEitherWay(g: Network, p: Labels, c: nat, d: nat)
    requires |p| == g.n
    ensures Modularity(g, Joined(p, c, d)) == Modularity(g, Joined(p, d, c))
  {
    hide Modularity;
    var x, y := Joined(p, c, d), Joined(p, d, c);
    assert SameKernel(x, y);
    SameKernelSameModularity(g, x, y);
  }

  /** A colouring constant on communities, as a colouring of the communities. */
  ghost function Pushed(p: Labels, k: nat, colour: seq<int>): (r: seq<int>)
    requires Compatible(p, colour) && forall c: nat | c < k :: UsedBefore(p, |p|, c)
    ensures |r| == k && forall u | 0 <= u < |p| && p[u] < k :: r[p[u]] == colour[u]
  {
    var r := seq(k, c requires 0 <= c < k => assert UsedBefore(p, |p|, c); var u: nat :| u < |p| && p[u] == c; colour[u]);
    assert forall u | 0 <= u < |p| && p[u] < k :: exists v :: 0 <= v < |p| && p[v] == p[u] && r[p[u]] == colour[v];
    r
  }

  /** The pushed colouring still respects the links. */
  lemma PushedRespects(g: Network, p: Labels, k: nat, colour: seq<int>)
    requires Collapsible(g, p, k) && Compatible(p, colour) && Respects(g, colour)
    requires forall c: nat | c < k :: UsedBefore(p, |p|, c)
    ensures Respects(Collapse(g, p, k), Pushed(p, k, colour))
  {
    hide Pushed;
    var h, pushed := Collapse(g, p, k), Pushed(p, k, colour);
    forall c, d | Linked(h, c, d) ensures d < k && pushed[c] == pushed[d] {
      assert d as nat in NeighboursOf(g, p, k, c);
      var u, v :| Linked(g, u, v) && LabelAt(p)(u) == c && LabelAt(p)(v) == d;
    }
  }

  lemma {:induction false} LouvainKeepsColour(g: Network, colour: seq<int>)
    requires Respects(g, colour)
    ensures Compatible(LouvainLabels(g), colour)
    decreases g.n
  {
    hide Pushed, PassLabels, Collapse, Dense;
    if PassLabels(g) != Singletons(g.n) {
      PassShrinks(g);
      var (dense, k) := Dense(PassLabels(g));
      PassColour(g, colour);
      PushedRespects(g, dense, k, colour);
      LouvainKeepsColour(Collapse(g, dense, k), Pushed(dense, k, colour));
    }
  }

  lemma PassColour(g: Network, colour: seq<int>)
    requires Respects(g, colour)
    ensures IsRenumbering(PassLabels(g), Dense(PassLabels(g)).0, Dense(PassLabels(g)).1)
    ensures Compatible(Dense(PassLabels(g)).0, colour)
  {
    hide Dense;
    PassKeepsColour(g, Singletons(g.n), colour);
    DenseIsRenumbering(PassLabels(g));
    var p, dense := PassLabels(g), Dense(PassLabels(g)).0;
    forall u, v | 0 <= u < |p| && 0 <= v < |p| && dense[u] == dense[v] ensures colour[u] == colour[v] {
      assert p[u] == p[v];
    }
  }

  /** Nodes with the same final label are joined by a walk in the input graph, through any number of levels. */
  lemma CommunitiesAreConnected(g: Network, u: nat, v: nat)
    requires u < g.n && v < g.n && LouvainLabels(g)[u] == LouvainLabels(g)[v]
    ensures Connected(g, u, v)
  {
    forall colour | Respects(g, colour) ensures colour[u] == colour[v] {
      LouvainKeepsColour(g, colour);
    }
    InseparableIsConnected(g, u, v);
  }

  /** A node without links to others ends alone. */
  lemma IsolatedNodeStaysAlone(g: Network, u: nat, v: nat)
    requires u < g.n && v < g.n && u != v && g.adj[u] == map[]
    ensures LouvainLabels(g)[u] != LouvainLabels(g)[v]
  {
    hide LouvainLabels;
    var colour := seq(g.n, x => if x == u then 1 else 0);
    forall x, y | Linked(g, x, y) ensures y < g.n && colour[x] == colour[y] {
      assert Linked(g, y, x) && y < g.n && x != u && y != u;
    }
    LouvainKeepsColour(g, colour);
  }
}
