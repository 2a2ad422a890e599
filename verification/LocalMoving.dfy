/**
 * The local-moving phase of Louvain as functions of the graph's value: the choice made for one node,
 * a sweep over all nodes, and sweeps until nothing moves. The theorems about the phase are lemmas here;
 * `LouvainPass.LouvainOnePass` is proved to compute `PassLabels`.
 */
module LocalMoving {
  import opened Sums
  import opened WeightedGraph

  ghost predicate Ready(g: Network, p: Labels, u: nat) {
    Labelling(g, p) && u < g.n
  }

  /** The scores that the code compares: staying is credited with the self-loop of u. */
  ghost function Candidates(g: Network, p: Labels, u: nat): int -> int {
    c => Score(g, p, u, c) + if c == LabelAt(p)(u) then g.m2 * Loop(g, u) else 0
  }

  /** Label b, with score s, is the choice among the labels in cs: the smallest with the best positive score, else stay. */
  ghost predicate IsBest(score: int -> int, stay: nat, cs: iset<int>, b: nat, s: int) {
    if s <= 0 then
      s == 0 && b == stay && forall c | c in cs :: score(c) <= 0
    else
      && b in cs && score(b) == s
      && forall c | c in cs :: score(c) <= s && (score(c) == s ==> b <= c)
  }

  ghost function Below(k: int): iset<int> {
    iset c: int | InRange(c, k)
  }

  lemma {:induction false} BestBelow(score: int -> int, stay: nat, k: nat) returns (b: nat, s: int)
    ensures IsBest(score, stay, Below(k), b, s)
  {
    if k == 0 { return stay, 0; }
    b, s := BestBelow(score, stay, k - 1);
    if score(k - 1) > s { b, s := k - 1, score(k - 1); }
  }

  ghost predicate Best(g: Network, p: Labels, u: nat, b: nat)
    requires Ready(g, p, u)
  {
    exists s :: IsBest(Candidates(g, p, u), p[u], Below(g.n), b, s)
  }

  /** The community chosen for u, among all communities. */
  ghost function Choice(g: Network, p: Labels, u: nat): (c: nat)
    requires Ready(g, p, u)
    ensures c < g.n
  {
    assert exists b: nat :: b < g.n && Best(g, p, u, b) by {
      var b, s := BestBelow(Candidates(g, p, u), p[u], g.n);
      assert s > 0 ==> b in Below(g.n);
      assert Best(g, p, u, b);
    }
    var c: nat :| c < g.n && Best(g, p, u, c);
    c
  }

  /** What the choice is: the smallest label of highest positive credited score; the current one when none is positive. */
  lemma ChoiceIsBest(g: Network, p: Labels, u: nat, c: nat)
    requires Ready(g, p, u) && c < g.n
    ensures var credited := Candidates(g, p, u);
      c == Choice(g, p, u) <==>
        if forall d: nat | d < g.n :: credited(d) <= 0 then c == p[u]
        else credited(c) > 0 && forall d: nat | d < g.n :: credited(d) <= credited(c) && (credited(d) == credited(c) ==> c <= d)
  {
    var credited := Candidates(g, p, u);
    var s :| IsBest(credited, p[u], Below(g.n), Choice(g, p, u), s);
    forall d: nat | d < g.n ensures d in Below(g.n) {}
    hide Candidates;
    if s > 0 { assert Choice(g, p, u) in Below(g.n); }
  }

  /** A community with no other member of its own that u is linked to never scores above 0. */
  lemma NoLinkNoScore(g: Network, p: Labels, u: nat, c: int)
    requires Ready(g, p, u)
    requires forall v: nat | v < g.n && Linked(g, u, v) :: p[v] != c
    ensures Score(g, p, u, c) <= 0
  {
    var w := Others(p, u, c, Row(Adjacency(g), u));
    forall v: nat | v < g.n ensures w(v) == 0 {
      assert LabelAt(p)(v) == p[v];
      assert w(v) == if v != u && p[v] == c then Row(Adjacency(g), u)(v) else 0;
      assert v != u ==> Row(Adjacency(g), u)(v) == Weight(g, u, v);
    }
    SumZero(g.n, w);
    var d := Others(p, u, c, Deg(g));
    SumZero(g.n, x => 0);
    SumMono(g.n, x => 0, d);
    ProductNonneg(TotalWithout(g, p, u, c), Deg(g)(u));
  }

  /** Whatever beats every linked community and the current one is the choice: unlinked communities need no look. */
  lemma ChoiceAmongLinked(g: Network, p: Labels, u: nat, cs: iset<int>, b: nat, s: int)
    requires Ready(g, p, u) && IsBest(Candidates(g, p, u), p[u], cs, b, s)
    requires cs <= Below(g.n) && p[u] in cs && forall v: nat | v < g.n && Linked(g, u, v) :: p[v] in cs
    ensures b == Choice(g, p, u)
  {
    var score := Candidates(g, p, u);
    forall c: int | c !in cs ensures score(c) <= 0 {
      NoLinkNoScore(g, p, u, c);
    }
    var s' :| IsBest(score, p[u], Below(g.n), Choice(g, p, u), s');
    if s > 0 { assert b in Below(g.n); }
    if s' > 0 { assert Choice(g, p, u) in Below(g.n); }
  }

  /** A move goes to a community that already holds a neighbour. */
  lemma MoveFollowsEdge(g: Network, p: Labels, u: nat) returns (v: nat)
    requires Ready(g, p, u) && Choice(g, p, u) != p[u]
    ensures v < g.n && v != u && Linked(g, u, v) && p[v] == Choice(g, p, u)
  {
    var c := Choice(g, p, u);
    if forall v: nat | v < g.n && Linked(g, u, v) :: p[v] != c {
      NoLinkNoScore(g, p, u, c);
    }
    v :| v < g.n && Linked(g, u, v) && p[v] == c;
  }

  /** A move scores above 0 and at least as high as staying, self-loop credit included. */
  lemma MoveScores(g: Network, p: Labels, u: nat)
    requires Ready(g, p, u) && Choice(g, p, u) != p[u]
    ensures var c := Choice(g, p, u);
      && Score(g, p, u, c) > 0
      && Score(g, p, u, c) >= Score(g, p, u, p[u]) + g.m2 * Loop(g, u) >= Score(g, p, u, p[u])
      && (Score(g, p, u, c) == Score(g, p, u, p[u]) ==> c < p[u])
  {
    var c, score := Choice(g, p, u), Candidates(g, p, u);
    ProductNonneg(g.m2, Loop(g, u));
    assert p[u] in Below(g.n);
    assert score(p[u]) == Score(g, p, u, p[u]) + g.m2 * Loop(g, u);
    assert score(c) == Score(g, p, u, c);
  }

  /* ---- progress ---- */

  ghost function LabelSum(g: Network, p: Labels): int {
    Sum(g.n, LabelAt(p))
  }

  /** Higher modularity, or the same with smaller labels. */
  ghost predicate Better(g: Network, p: Labels, q: Labels) {
    Modularity(g, q) > Modularity(g, p) || (Modularity(g, q) == Modularity(g, p) && LabelSum(g, q) < LabelSum(g, p))
  }

  /** Every accepted move raises true modularity, or keeps it and lowers the node's label. */
  lemma MoveImproves(g: Network, p: Labels, u: nat)
    requires Ready(g, p, u) && Choice(g, p, u) != p[u]
    ensures Better(g, p, p[u := Choice(g, p, u)])
    ensures Modularity(g, p[u := Choice(g, p, u)]) == Modularity(g, p) ==> Choice(g, p, u) < p[u]
  {
    MoveScores(g, p, u);
    MoveChangesModularity(g, p, u, Choice(g, p, u));
    MoveChangesLabelSum(g, p, u, Choice(g, p, u));
  }

  lemma MoveChangesLabelSum(g: Network, p: Labels, u: nat, c: nat)
    requires Labelling(g, p) && u < g.n
    ensures LabelSum(g, p[u := c]) == LabelSum(g, p) + c - p[u]
  {
    SumDelta(g.n, LabelAt(p), LabelAt(p[u := c]), u, c as int - p[u] as int);
  }

  /** The sweep: nodes u, u+1, ... are given their choice in turn. */
  ghost function Sweep(g: Network, p: Labels, u: nat): (q: Labels)
    requires Labelling(g, p) && u <= g.n
    ensures Labelling(g, q) && forall i | 0 <= i < u :: q[i] == p[i]
    decreases g.n - u
  {
    if u == g.n then p else Sweep(g, p[u := Choice(g, p, u)], u + 1)
  }

  lemma {:induction false} SweepImproves(g: Network, p: Labels, u: nat)
    requires Labelling(g, p) && u <= g.n
    ensures Sweep(g, p, u) == p || Better(g, p, Sweep(g, p, u))
    decreases g.n - u
  {
    hide Score, Choice;
    if u < g.n {
      var q := p[u := Choice(g, p, u)];
      if q == p { SweepImproves(g, p, u + 1); } else { MoveImproves(g, p, u); SweepImproves(g, q, u + 1); }
    }
  }

  lemma LabelSumNonneg(g: Network, p: Labels)
    requires Labelling(g, p)
    ensures LabelSum(g, p) >= 0
  {
    SumZero(g.n, x => 0);
    SumMono(g.n, x => 0, LabelAt(p));
  }

  /** What makes the repeated sweeps end: modularity is bounded and rises, or stays while the labels shrink. */
  lemma SweepProgresses(g: Network, p: Labels)
    requires Labelling(g, p) && Sweep(g, p, 0) != p
    ensures var q := Sweep(g, p, 0);
      Better(g, p, q) && Modularity(g, q) <= g.m2 * g.m2 && 0 <= LabelSum(g, q)
  {
    SweepImproves(g, p, 0);
    ModularityBounded(g, Sweep(g, p, 0));
    LabelSumNonneg(g, Sweep(g, p, 0));
  }

  /** Sweeps until one moves nothing. */
  ghost function PassFrom(g: Network, p: Labels): (q: Labels)
    requires Labelling(g, p)
    ensures Labelling(g, q) && Sweep(g, q, 0) == q
    decreases g.m2 * g.m2 - Modularity(g, p), LabelSum(g, p)
  {
    var q := Sweep(g, p, 0);
    if q == p then p
    else
      SweepProgresses(g, p);
      PassFrom(g, q)
  }

  lemma {:induction false} PassImproves(g: Network, p: Labels)
    requires Labelling(g, p)
    ensures PassFrom(g, p) == p || Better(g, p, PassFrom(g, p))
    decreases g.m2 * g.m2 - Modularity(g, p), LabelSum(g, p)
  {
    var q := Sweep(g, p, 0);
    if q != p {
      SweepProgresses(g, p);
      PassImproves(g, q);
    }
  }

  /** The labels of one pass over g, from singletons. */
  ghost function PassLabels(g: Network): (q: Labels)
    ensures Labelling(g, q)
  {
    PassFrom(g, Singletons(g.n))
  }

  /** A sweep gives each node the choice it has when the nodes before it have moved and those behind it have not. */
  lemma {:induction false} SweepChooses(g: Network, p: Labels, u: nat, x: nat)
    requires Labelling(g, p) && u <= x < g.n
    ensures var q := Sweep(g, p, u); var seen := q[..x] + p[x..];
      Labelling(g, seen) && q[x] == Choice(g, seen, x)
    decreases g.n - u
  {
    hide Choice;
    var next := p[u := Choice(g, p, u)];
    var q := Sweep(g, p, u);
    assert q == Sweep(g, next, u + 1);
    if u == x {
      assert q[..x] + p[x..] == p;
      assert q[x] == next[x];
    } else {
      SweepChooses(g, next, u + 1, x);
      assert next[x..] == p[x..];
    }
  }

  /** The labels after k sweeps. */
  ghost function Swept(g: Network, p: Labels, k: nat): (q: Labels)
    requires Labelling(g, p)
    ensures Labelling(g, q)
  {
    if k == 0 then p else Sweep(g, Swept(g, p, k - 1), 0)
  }

  lemma {:induction false} SweptFrom(g: Network, p: Labels, k: nat)
    requires Labelling(g, p)
    ensures Swept(g, Sweep(g, p, 0), k) == Swept(g, p, k + 1)
  {
    hide Sweep;
    if k == 0 {
      assert Swept(g, p, 1) == Sweep(g, Swept(g, p, 0), 0);
    } else {
      SweptFrom(g, p, k - 1);
    }
  }

  /** A pass is sweeps one after the other, and stops at the first that changes nothing. */
  lemma {:induction false} PassIsSweeps(g: Network, p: Labels) returns (k: nat)
    requires Labelling(g, p)
    ensures PassFrom(g, p) == Swept(g, p, k) == Swept(g, p, k + 1)
    ensures forall j: nat | j < k :: Swept(g, p, j) != Swept(g, p, j + 1)
    decreases g.m2 * g.m2 - Modularity(g, p), LabelSum(g, p)
  {
    hide Sweep, Modularity, LabelSum;
    var q := Sweep(g, p, 0);
    SweptFrom(g, p, 0);
    if q == p {
      k := 0;
    } else {
      SweepProgresses(g, p);
      k := PassIsSweeps(g, q);
      SweptFrom(g, p, k);
      SweptFrom(g, p, k + 1);
      forall j: nat | j < k + 1 ensures Swept(g, p, j) != Swept(g, p, j + 1) {
        if j > 0 {
          SweptFrom(g, p, j - 1);
          SweptFrom(g, p, j);
        }
      }
      k := k + 1;
    }
  }

  /* ---- what holds when a pass ends ---- */

  lemma {:induction false} StillSweep(g: Network, p: Labels, u: nat, x: nat)
    requires Labelling(g, p) && u <= x < g.n && Sweep(g, p, u) == p
    ensures Choice(g, p, x) == p[x]
    decreases g.n - u
  {
    var q := p[u := Choice(g, p, u)];
    assert Sweep(g, q, u + 1)[u] == q[u];
    assert q == p;
    if u < x { StillSweep(g, p, u + 1, x); }
  }

  ghost function Max(a: int, b: int): int {
    if a > b then a else b
  }

  lemma StayScores(g: Network, p: Labels, u: nat, c: nat)
    requires Ready(g, p, u) && Choice(g, p, u) == p[u] != c && c < g.n
    ensures Score(g, p, u, c) <= Max(0, Score(g, p, u, p[u]) + g.m2 * Loop(g, u))
  {
    var score := Candidates(g, p, u);
    assert c in Below(g.n) && p[u] in Below(g.n);
    assert score(p[u]) == Score(g, p, u, p[u]) + g.m2 * Loop(g, u);
    assert score(c) == Score(g, p, u, c);
  }

  /* ---- what the choice can miss ---- */

  ghost function Scores(g: Network, p: Labels, u: nat): int -> int {
    c => Score(g, p, u, c)
  }

  /** Without what u adds to its own community by itself. */
  ghost function OthersBond(g: Network, u: nat): int -> int {
    v => if v != u then Row(Bond(g), u)(v) else 0
  }

  /** All bonds of a node, its bond with itself included, add up to 0. */
  lemma BondsCancel(g: Network, u: nat)
    requires u < g.n
    ensures Sum(g.n, Row(Bond(g), u)) == 0
  {
    var b := Row(Bond(g), u);
    forall v | 0 <= v < g.n ensures b(v) == g.m2 * Row(Adjacency(g), u)(v) + -Deg(g)(u) * Deg(g)(v) {
      BondIs(g, u, v);
    }
    SumLinear(g.n, g.m2, Row(Adjacency(g), u), -Deg(g)(u), Deg(g), b);
    assert Deg(g)(u) == Sum(g.n, Row(Adjacency(g), u));
    Rearranged(g.m2, Deg(g)(u), Deg(g)(u), g.m2);
    Commutes(g.m2, Deg(g)(u));
  }

  lemma BondWithSelf(g: Network, u: nat)
    ensures Row(Bond(g), u)(u) == 2 * (g.m2 * Loop(g, u)) - Deg(g)(u) * Deg(g)(u)
  {
    BondIs(g, u, u);
    Doubles(g.m2, Loop(g, u));
    Rearranged(g.m2, 2 * Loop(g, u), Deg(g)(u), Deg(g)(u));
  }

  lemma Doubles(m: int, x: int)
    ensures m * (2 * x) == 2 * (m * x)
  {
  }

  lemma BondsWithOthers(g: Network, u: nat)
    requires u < g.n
    ensures Sum(g.n, OthersBond(g, u)) == Deg(g)(u) * Deg(g)(u) - 2 * (g.m2 * Loop(g, u))
  {
    var b := Row(Bond(g), u);
    hide Bond;
    BondsCancel(g, u);
    BondWithSelf(g, u);
    SumDelta(g.n, OthersBond(g, u), b, u, b(u));
  }

  /** Over all communities the scores of a node add up to the square of its degree less its self-loop. */
  lemma ScoresAddUp(g: Network, p: Labels, u: nat)
    requires Ready(g, p, u)
    ensures Sum(g.n, Scores(g, p, u)) == Deg(g)(u) * Deg(g)(u) - 2 * (g.m2 * Loop(g, u))
  {
    hide Score;
    var b := OthersBond(g, u);
    forall c | 0 <= c < g.n ensures Scores(g, p, u)(c) == FibreSums(g.n, LabelAt(p), b)(c) {
      ScoreIsBond(g, p, u, c);
      SumExt(g.n, Others(p, u, c, Row(Bond(g), u)), Fibre(LabelAt(p), b, c));
    }
    SumExt(g.n, Scores(g, p, u), FibreSums(g.n, LabelAt(p), b));
    SumByFibre(g.n, g.n, LabelAt(p), b);
    BondsWithOthers(g, u);
  }

  /** The self-loop of u is no heavier than its degree carries; so it is when u has none. */
  ghost predicate LightLoop(g: Network, u: nat) {
    2 * (g.m2 * Loop(g, u)) <= Deg(g)(u) * Deg(g)(u)
  }

  lemma NoLoopIsLight(g: Network, u: nat)
    requires Loop(g, u) == 0
    ensures LightLoop(g, u)
  {
    if Deg(g)(u) >= 0 { ProductNonneg(Deg(g)(u), Deg(g)(u)); }
  }

  /** With a light self-loop, staying scores below 0 only if some other community scores above 0. */
  lemma SomethingScores(g: Network, p: Labels, u: nat)
    requires Ready(g, p, u) && LightLoop(g, u) && forall d: nat | d < g.n && d != p[u] :: Score(g, p, u, d) <= 0
    ensures Score(g, p, u, p[u]) >= 0
  {
    hide Score, LightLoop;
    var s := Score(g, p, u, p[u]);
    var stay := c => if c == p[u] then s else 0;
    ScoresAddUp(g, p, u);
    SumMono(g.n, Scores(g, p, u), stay);
    SumZero(g.n, c => 0);
    SumDelta(g.n, c => 0, stay, p[u], s);
    LightLoopMeans(g, u);
  }

  lemma LightLoopMeans(g: Network, u: nat)
    requires LightLoop(g, u)
    ensures Deg(g)(u) * Deg(g)(u) - 2 * (g.m2 * Loop(g, u)) >= 0
  {
  }

  /** c scores highest for u among the communities it is not in, and is the smallest of those. */
  ghost predicate BestElsewhere(g: Network, p: Labels, u: nat, c: nat)
    requires Ready(g, p, u)
  {
    && c < g.n && c != p[u]
    && forall d: nat | d < g.n && d != p[u] :: Score(g, p, u, d) <= Score(g, p, u, c) && (Score(g, p, u, d) == Score(g, p, u, c) ==> c <= d)
  }

  /**
   * Exactly when a node is kept although a move would raise modularity: the best move's own score is not positive, or
   * staying is credited with at least as much.
   */
  lemma MissedMoveIff(g: Network, p: Labels, u: nat, c: nat)
    requires Ready(g, p, u) && BestElsewhere(g, p, u, c) && Modularity(g, p[u := c]) > Modularity(g, p)
    ensures Choice(g, p, u) == p[u] <==>
      var s, credited := Score(g, p, u, c), Score(g, p, u, p[u]) + g.m2 * Loop(g, u);
      s <= 0 || s < credited || (s == credited && p[u] < c)
  {
    hide Score, Modularity;
    MoveChangesModularity(g, p, u, c);
    var score := Candidates(g, p, u);
    var s :| IsBest(score, p[u], Below(g.n), Choice(g, p, u), s);
    assert c in Below(g.n) && p[u] in Below(g.n);
    assert score(c) == Score(g, p, u, c) && score(p[u]) == Score(g, p, u, p[u]) + g.m2 * Loop(g, u);
    ProductNonneg(g.m2, Loop(g, u));
    var b := Choice(g, p, u);
    assert b != p[u] ==> score(b) == Score(g, p, u, b);
  }

  /** With a light self-loop the best move that would raise modularity scores above 0: only the credit can hide it. */
  lemma ThresholdHidesNothing(g: Network, p: Labels, u: nat, c: nat)
    requires Ready(g, p, u) && LightLoop(g, u) && BestElsewhere(g, p, u, c) && Modularity(g, p[u := c]) > Modularity(g, p)
    ensures Score(g, p, u, c) > 0
  {
    hide Score, Modularity, LightLoop;
    MoveChangesModularity(g, p, u, c);
    if Score(g, p, u, c) <= 0 { SomethingScores(g, p, u); }
  }

  /** In any labelling a node without a self-loop that is kept has no move that would raise modularity. */
  lemma NoLoopNothingMissed(g: Network, p: Labels, u: nat, c: nat)
    requires Ready(g, p, u) && c < g.n && Loop(g, u) == 0 && Choice(g, p, u) == p[u]
    ensures Modularity(g, p[u := c]) <= Modularity(g, p)
  {
    hide Score, Modularity, Choice, LightLoop;
    if c == p[u] {
      assert p[u := c] == p;
    } else {
      forall d: nat | d < g.n && d != p[u] ensures Score(g, p, u, d) <= Max(0, Score(g, p, u, p[u])) {
        StayScores(g, p, u, d);
      }
      NoLoopIsLight(g, u);
      if Score(g, p, u, p[u]) < 0 { SomethingScores(g, p, u); }
      MoveChangesModularity(g, p, u, c);
    }
  }

  /**
   * When a pass ends, no community scores above max(0, staying) for any node, and no move of a node without a self-loop
   * would raise modularity.
   */
  lemma PassIsLocallyOptimal(g: Network, u: nat, c: nat)
    requires u < g.n && c < g.n && c != PassLabels(g)[u]
    ensures var p := PassLabels(g);
      && Score(g, p, u, c) <= Max(0, Score(g, p, u, p[u]) + g.m2 * Loop(g, u))
      && (Modularity(g, p[u := c]) > Modularity(g, p) <==> Score(g, p, u, p[u]) < Score(g, p, u, c))
      && (Loop(g, u) == 0 ==> Modularity(g, p[u := c]) <= Modularity(g, p))
  {
    hide Score, Choice, Modularity;
    var p := PassLabels(g);
    StillSweep(g, p, 0, u);
    StayScores(g, p, u, c);
    MoveChangesModularity(g, p, u, c);
    if Loop(g, u) == 0 { NoLoopNothingMissed(g, p, u, c); }
  }

  /* ---- a pass that moves anything empties a community ---- */

  ghost predicate Unused(g: Network, p: Labels, e: nat) {
    e < g.n && e !in p
  }

  lemma {:induction false} SweepKeepsUnused(g: Network, p: Labels, u: nat, e: nat)
    requires Labelling(g, p) && u <= g.n && Unused(g, p, e)
    ensures Unused(g, Sweep(g, p, u), e)
    decreases g.n - u
  {
    hide Choice;
    if u < g.n {
      var c := Choice(g, p, u);
      if c != p[u] { var v := MoveFollowsEdge(g, p, u); }
      SweepKeepsUnused(g, p[u := c], u + 1, e);
    }
  }

  lemma {:induction false} PassKeepsUnused(g: Network, p: Labels, e: nat)
    requires Labelling(g, p) && Unused(g, p, e)
    ensures Unused(g, PassFrom(g, p), e)
    decreases g.m2 * g.m2 - Modularity(g, p), LabelSum(g, p)
  {
    var q := Sweep(g, p, 0);
    SweepKeepsUnused(g, p, 0, e);
    if q != p {
      SweepProgresses(g, p);
      PassKeepsUnused(g, q, e);
    }
  }

  lemma AloneScoresZero(g: Network, u: nat)
    requires u < g.n
    ensures Score(g, Singletons(g.n), u, u) == 0
  {
    var p := Singletons(g.n);
    forall v: nat | v < g.n
      ensures Others(p, u, u, Row(Adjacency(g), u))(v) == 0 == Others(p, u, u, Deg(g))(v)
    {
      assert LabelAt(p)(v) == v;
    }
    SumZero(g.n, Others(p, u, u, Row(Adjacency(g), u)));
    SumZero(g.n, Others(p, u, u, Deg(g)));
  }

  /** The first move of a pass leaves its own community empty and strictly raises modularity. */
  lemma {:induction false} FirstMove(g: Network, u: nat) returns (e: nat)
    requires u <= g.n && Sweep(g, Singletons(g.n), u) != Singletons(g.n)
    ensures Unused(g, Sweep(g, Singletons(g.n), u), e)
    ensures Modularity(g, Sweep(g, Singletons(g.n), u)) > Modularity(g, Singletons(g.n))
    decreases g.n - u
  {
    hide Score, Choice;
    var p := Singletons(g.n);
    var q := p[u := Choice(g, p, u)];
    if q == p {
      e := FirstMove(g, u + 1);
    } else {
      e := u;
      SweepKeepsUnused(g, q, u + 1, e);
      SweepImproves(g, q, u + 1);
      MoveScores(g, p, u);
      AloneScoresZero(g, u);
      MoveChangesModularity(g, p, u, Choice(g, p, u));
    }
  }

  /** A pass that changes anything strictly raises modularity and leaves some label without members. */
  lemma PassThatMoves(g: Network) returns (e: nat)
    requires PassLabels(g) != Singletons(g.n)
    ensures Unused(g, PassLabels(g), e)
    ensures Modularity(g, PassLabels(g)) > Modularity(g, Singletons(g.n))
  {
    var p := Singletons(g.n);
    e := FirstMove(g, 0);
    var q := Sweep(g, p, 0);
    PassKeepsUnused(g, q, e);
    PassImproves(g, q);
  }

  /* ---- communities stay inside connected components ---- */

  lemma {:induction false} SweepKeepsColour(g: Network, p: Labels, u: nat, colour: seq<int>)
    requires Labelling(g, p) && u <= g.n && Respects(g, colour) && Compatible(p, colour)
    ensures Compatible(Sweep(g, p, u), colour)
    decreases g.n - u
  {
    hide Choice;
    if u < g.n {
      var c := Choice(g, p, u);
      if c != p[u] { var v := MoveFollowsEdge(g, p, u); }
      SweepKeepsColour(g, p[u := c], u + 1, colour);
    }
  }

  lemma {:induction false} PassKeepsColour(g: Network, p: Labels, colour: seq<int>)
    requires Labelling(g, p) && Respects(g, colour) && Compatible(p, colour)
    ensures Compatible(PassFrom(g, p), colour)
    decreases g.m2 * g.m2 - Modularity(g, p), LabelSum(g, p)
  {
    var q := Sweep(g, p, 0);
    SweepKeepsColour(g, p, 0, colour);
    if q != p {
      SweepProgresses(g, p);
      PassKeepsColour(g, q, colour);
    }
  }

  /* ---- a move that the self-loop credit hides ---- */

  /** Two nodes with a self-edge each and three edges between them. */
  ghost function TwoLoops(): (g: Network)
    ensures g == Graph(2, [map[1 := 3], map[0 := 3]], [1, 1], [5, 5], 10)
  {
    var g := Graph(2, [map[1 := 3], map[0 := 3]], [1, 1], [5, 5], 10);
    assert forall u, v :: Linked(g, u, v) <==> (u == 0 && v == 1) || (u == 1 && v == 0);
    forall u | 0 <= u < 2 ensures g.degree[u] == Sum(2, Row(Adjacency(g), u)) {
      SumOfTwo(Row(Adjacency(g), u));
      assert Weight(g, 0, 1) == 3 == Weight(g, 1, 0) && Loop(g, 0) == 1 == Loop(g, 1);
      assert Row(Adjacency(g), u)(0) == Adjacency(g)(u, 0) && Row(Adjacency(g), u)(1) == Adjacency(g)(u, 1);
    }
    SumOfTwo(Deg(g));
    g
  }

  lemma SumOfTwo(f: int -> int)
    ensures Sum(2, f) == f(0) + f(1)
  {
    assert Sum(1, f) == Sum(0, f) + f(0);
  }

  lemma TwoLoopsScores(u: nat, c: nat)
    requires u < 2 && c < 2
    ensures var g := TwoLoops();
      Score(g, Singletons(2), u, c) == (if c == u then 0 else 5) && g.m2 * Loop(g, u) == 10
  {
    var g, p := TwoLoops(), Singletons(2);
    SumOfTwo(Others(p, u, c, Row(Adjacency(g), u)));
    SumOfTwo(Others(p, u, c, Deg(g)));
    assert Linked(g, 0, 1) && Linked(g, 1, 0);
    assert LabelAt(p)(0) == 0 && LabelAt(p)(1) == 1;
  }

  /**
   * "Until no node move improves modularity" does not hold with self-loops: here the pass moves nothing although joining
   * the two nodes would raise modularity.
   */
  lemma SelfLoopCreditHidesMove()
    ensures var g := TwoLoops();
      && PassLabels(g) == Singletons(2)
      && Modularity(g, Singletons(2)[0 := 1]) > Modularity(g, Singletons(2))
  {
    var g, p := TwoLoops(), Singletons(2);
    TwoLoopsScores(0, 0);
    TwoLoopsScores(0, 1);
    TwoLoopsScores(1, 0);
    TwoLoopsScores(1, 1);
    hide Score;
    forall u: nat | u < 2 ensures Choice(g, p, u) == u {
      var score := Candidates(g, p, u);
      assert score(u) == 10 && score(1 - u) == 5;
      var s :| IsBest(score, u, Below(2), Choice(g, p, u), s);
      assert InRange(0, 2) && InRange(1, 2) && 0 in Below(2) && 1 in Below(2);
    }
    assert p[0 := 0] == p && p[1 := 1] == p;
    assert Sweep(g, p, 2) == p;
    assert Sweep(g, p, 1) == p;
    MoveChangesModularity(g, p, 0, 1);
  }
}
