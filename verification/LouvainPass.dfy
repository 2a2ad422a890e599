/** One Louvain pass over the mutable graph, proved to compute `LocalMoving.PassLabels` of the graph's value. */
module LouvainPass {
  import opened Sums
  import opened WeightedGraph
  import opened LocalMoving
  import opened LouvainGraphs

  /* ---- the tolerance test ---- */

  const TOLERANCE: real := 0.000000000001
  const TOLERANCE_INVERSE: int := 1_000_000_000_000

  ghost function GainOf(score: int, m2: int): real
    requires m2 > 0
  {
    score as real / m2 as real
  }

  /** The comparison the code makes between two gains. */
  ghost predicate Exceeds(a: int, b: int, m2: int)
    requires m2 > 0
  {
    GainOf(a, m2) > GainOf(b, m2) + TOLERANCE
  }

  lemma ExceedsByTolerance(a: int, b: int, m2: int)
    requires m2 > 0
    ensures Exceeds(a, b, m2) <==> (a - b) * TOLERANCE_INVERSE > m2
  {
    var x, y, m := a as real, b as real, m2 as real;
    var d := x / m - y / m;
    assert x / m * m == x && y / m * m == y;
    assert d * m == x - y;
    if d > TOLERANCE {
      assert d * m > TOLERANCE * m;
    } else {
      assert d * m <= TOLERANCE * m;
    }
    assert (a - b) as real == x - y;
  }

  /** The tolerance separates scores exactly as a strict comparison does if and only if m2 is below 10^12. */
  lemma ToleranceIsStrict(m2: int)
    requires m2 > 0
    ensures (forall a, b :: Exceeds(a, b, m2) <==> a > b) <==> m2 < TOLERANCE_INVERSE
  {
    forall a, b ensures Exceeds(a, b, m2) <==> (a - b) * TOLERANCE_INVERSE > m2 {
      ExceedsByTolerance(a, b, m2);
    }
    if m2 >= TOLERANCE_INVERSE { assert !Exceeds(1, 0, m2); }
  }

  /** The gain as the code computes it is the score divided by m2. */
  lemma GainIsScore(w: int, tot: int, deg: int, m2: int)
    requires m2 > 0
    ensures w as real - (tot * deg) as real / m2 as real == GainOf(m2 * w - tot * deg, m2)
  {
    var x, m := w as real, m2 as real;
    assert (m2 * w) as real == m * x;
    assert m * x / m == x;
  }

  /* ---- sorting, as sort.Ints does ---- */

  function InsertSorted(x: nat, s: seq<nat>): (r: seq<nat>)
    ensures multiset(r) == multiset(s) + multiset{x}
  {
    if s == [] then [x]
    else if x <= s[0] then [x] + s
    else
      assert s == [s[0]] + s[1..];
      [s[0]] + InsertSorted(x, s[1..])
  }

  function SortInts(s: seq<nat>): (r: seq<nat>)
    ensures multiset(r) == multiset(s)
  {
    if s == [] then []
    else
      assert s == [s[0]] + s[1..];
      InsertSorted(s[0], SortInts(s[1..]))
  }

  ghost predicate Sorted(s: seq<nat>) {
    forall i, j | 0 <= i < j < |s| :: s[i] <= s[j]
  }

  lemma {:induction false} InsertKeepsSorted(x: nat, s: seq<nat>)
    requires Sorted(s)
    ensures Sorted(InsertSorted(x, s))
  {
    if s != [] && x > s[0] {
      InsertKeepsSorted(x, s[1..]);
      AtLeast(x, s[1..], s[0]);
    }
  }

  lemma {:induction false} AtLeast(x: nat, s: seq<nat>, low: nat)
    requires low <= x && forall i | 0 <= i < |s| :: low <= s[i]
    ensures forall i | 0 <= i < |InsertSorted(x, s)| :: low <= InsertSorted(x, s)[i]
  {
    if s != [] && x > s[0] { AtLeast(x, s[1..], low); }
  }

  lemma {:induction false} SortIntsSorts(s: seq<nat>)
    ensures Sorted(SortInts(s))
    ensures forall x :: x in SortInts(s) <==> x in s
  {
    if s == [] {
    } else {
      SortIntsSorts(s[1..]);
      InsertKeepsSorted(s[0], SortInts(s[1..]));
    }
    forall x ensures x in SortInts(s) <==> x in s {
      assert x in SortInts(s) <==> x in multiset(SortInts(s));
      assert x in s <==> x in multiset(s);
    }
  }

  /* ---- one node ---- */

  /** The links of u to members of c among the neighbours in done. */
  ghost function LinksDone(g: Graph, p: Labels, u: nat, c: int, done: set<nat>): int -> int {
    v => if 0 <= v && v as nat in done && LabelAt(p)(v) == c then Weight(g, u, v) else 0
  }

  function Get(w: map<nat, nat>, c: int): nat {
    if c >= 0 && c as nat in w then w[c] else 0
  }

  ghost function LabelsOf(p: Labels, nodes: set<nat>): set<nat> {
    set v | v in nodes && v < |p| :: p[v]
  }

  /** One more neighbour adds its link to its own community. */
  lemma OneMoreLink(g: Network, p: Labels, u: nat, done: set<nat>, v: nat, c: int)
    requires Labelling(g, p) && u < g.n && v < g.n && v !in done
    ensures Sum(g.n, LinksDone(g, p, u, c, done + {v}))
      == Sum(g.n, LinksDone(g, p, u, c, done)) + if p[v] == c then Weight(g, u, v) else 0
  {
    assert LabelAt(p)(v) == p[v];
    SumDelta(g.n, LinksDone(g, p, u, c, done), LinksDone(g, p, u, c, done + {v}), v, if p[v] == c then Weight(g, u, v) else 0);
  }

  lemma AllLinksDone(g: Network, p: Labels, u: nat, c: int)
    requires Labelling(g, p) && u < g.n
    ensures Sum(g.n, LinksDone(g, p, u, c, g.adj[u].Keys)) == WeightTo(g, p, u, c)
  {
    var all, others := LinksDone(g, p, u, c, g.adj[u].Keys), Others(p, u, c, Row(Adjacency(g), u));
    forall v | 0 <= v < g.n ensures all(v) == others(v) {
      assert !Linked(g, u, u);
      assert v != u ==> Row(Adjacency(g), u)(v) == Weight(g, u, v);
    }
    SumExt(g.n, all, others);
  }

  ghost predicate Reads(lg: LouvainGraph, lab: array<nat>, g: Graph, p: Labels)
    reads lg, lg.adj, lg.selfLoop, lg.degree, lab
  {
    lg.Valid() && lg.View() == g && lab[..] == p
  }

  ghost predicate WeightsOf(g: Network, p: Labels, u: nat, w: map<nat, nat>, done: set<nat>) {
    && w.Keys == LabelsOf(p, done)
    && forall c :: Get(w, c) == Sum(g.n, LinksDone(g, p, u, c, done))
  }

  lemma NextWeights(g: Network, p: Labels, u: nat, w: map<nat, nat>, done: set<nat>, v: nat)
    requires Labelling(g, p) && u < g.n && v in g.adj[u] && v < g.n && v !in done && WeightsOf(g, p, u, w, done)
    ensures WeightsOf(g, p, u, w[p[v] := Get(w, p[v]) + g.adj[u][v]], done + {v})
  {
    forall c ensures Get(w[p[v] := Get(w, p[v]) + g.adj[u][v]], c) == Sum(g.n, LinksDone(g, p, u, c, done + {v})) {
      OneMoreLink(g, p, u, done, v, c);
    }
  }

  /** The weight from u to each neighbouring community, whatever the order in which the neighbours come. */
  method NeighbourWeights(lg: LouvainGraph, lab: array<nat>, u: nat, ghost g: Network, ghost p: Labels) returns (w: map<nat, nat>)
    requires Reads(lg, lab, g, p) && Labelling(g, p) && u < g.n
    ensures w.Keys == LabelsOf(p, g.adj[u].Keys)
    ensures forall c :: Get(w, c) == WeightTo(g, p, u, c)
  {
    hide WeightsOf, WeightTo;
    w := map[];
    var todo := lg.adj[u].Keys;
    ghost var done: set<nat> := {};
    NoWeights(g, p, u);
    while todo != {}
      invariant todo + done == g.adj[u].Keys && todo !! done
      invariant WeightsOf(g, p, u, w, done)
      decreases |todo|
    {
      var v :| v in todo;
      assert Linked(g, u, v);
      NextWeights(g, p, u, w, done, v);
      w := w[lab[v] := Get(w, lab[v]) + lg.adj[u][v]];
      todo, done := todo - {v}, done + {v};
    }
    assert done == g.adj[u].Keys;
    AllWeights(g, p, u, w);
  }

  lemma NoWeights(g: Network, p: Labels, u: nat)
    ensures WeightsOf(g, p, u, map[], {})
  {
    forall c ensures Sum(g.n, LinksDone(g, p, u, c, {})) == 0 {
      SumZero(g.n, LinksDone(g, p, u, c, {}));
    }
  }

  lemma AllWeights(g: Network, p: Labels, u: nat, w: map<nat, nat>)
    requires Labelling(g, p) && u < g.n && WeightsOf(g, p, u, w, g.adj[u].Keys)
    ensures w.Keys == LabelsOf(p, g.adj[u].Keys)
    ensures forall c :: Get(w, c) == WeightTo(g, p, u, c)
  {
    forall c ensures Get(w, c) == WeightTo(g, p, u, c) {
      AllLinksDone(g, p, u, c);
    }
  }

  /** The keys of the weight map as a list, in no particular order. */
  method AppendKeys(cu: nat, w: map<nat, nat>) returns (cs: seq<nat>)
    ensures forall c :: c in cs <==> c == cu || c in w
  {
    cs := [cu];
    var keys := w.Keys;
    while keys != {}
      invariant keys <= w.Keys
      invariant forall c :: c in cs <==> c == cu || c in w.Keys - keys
      decreases |keys|
    {
      var c :| c in keys;
      cs := cs + [c];
      keys := keys - {c};
    }
  }

  /** The weight compared for community c: staying is credited with the self-loop. */
  ghost function CreditedWeight(g: Network, p: Labels, u: nat, c: int): int
    requires Ready(g, p, u)
  {
    WeightTo(g, p, u, c) + if c == p[u] then Loop(g, u) else 0
  }

  lemma CandidateScore(g: Network, p: Labels, u: nat, c: int, w: int, tot: int)
    requires Ready(g, p, u) && g.m2 > 0
    requires w == CreditedWeight(g, p, u, c) && tot == TotalWithout(g, p, u, c)
    ensures w as real - (tot * g.degree[u]) as real / g.m2 as real == GainOf(Candidates(g, p, u)(c), g.m2)
  {
    GainIsScore(w, tot, g.degree[u], g.m2);
    Distributes(g.m2, WeightTo(g, p, u, c), if c == p[u] then Loop(g, u) else 0);
    assert Deg(g)(u) == g.degree[u];
    assert LabelAt(p)(u) == p[u];
  }

  lemma Distributes(m: int, a: int, b: int)
    ensures m * (a + b) == m * a + m * b
  {
  }

  /** The code's test on the gain of c compares scores by the tolerance. */
  lemma GainTest(g: Network, p: Labels, u: nat, c: int, w: int, tot: int, best: int)
    requires Ready(g, p, u) && 0 < g.m2
    requires w == CreditedWeight(g, p, u, c) && tot == TotalWithout(g, p, u, c)
    ensures var gain := w as real - (tot * g.degree[u]) as real / g.m2 as real;
      gain == GainOf(Candidates(g, p, u)(c), g.m2)
      && (gain > GainOf(best, g.m2) + TOLERANCE <==> Exceeds(Candidates(g, p, u)(c), best, g.m2))
  {
    hide Candidates, GainOf;
    CandidateScore(g, p, u, c, w, tot);
  }

  /* ---- the scan of the candidates ---- */

  /** The communities that are looked at for u: its own and those of its neighbours. */
  ghost predicate Evaluated(g: Network, p: Labels, u: nat, c: int)
    requires Ready(g, p, u)
  {
    c == p[u] || exists v: nat :: v < g.n && Linked(g, u, v) && p[v] == c
  }

  /** Best label and score after the labels below c: a later one is taken when it exceeds the best by the tolerance. */
  ghost function Scan(g: Network, p: Labels, u: nat, c: nat): (r: (nat, int))
    requires Ready(g, p, u) && g.m2 > 0 && c <= g.n
    ensures r.0 < g.n
  {
    if c == 0 then (p[u], 0)
    else
      var best := Scan(g, p, u, c - 1);
      if Evaluated(g, p, u, c - 1) && Exceeds(Candidates(g, p, u)(c - 1), best.1, g.m2) then (c - 1, Candidates(g, p, u)(c - 1))
      else best
  }

  /** The community that the code takes, for any m2. */
  ghost function Taken(g: Network, p: Labels, u: nat): (c: nat)
    requires Ready(g, p, u) && g.m2 > 0
    ensures c < g.n
  {
    Scan(g, p, u, g.n).0
  }

  lemma {:induction false} ScanSkips(g: Network, p: Labels, u: nat, c: nat, d: nat)
    requires Ready(g, p, u) && g.m2 > 0 && c <= d <= g.n && forall x | c <= x < d :: !Evaluated(g, p, u, x)
    ensures Scan(g, p, u, d) == Scan(g, p, u, c)
    decreases d
  {
    hide Evaluated, Exceeds, Candidates;
    if c < d { ScanSkips(g, p, u, c, d - 1); }
  }

  ghost predicate LookedAt(g: Network, p: Labels, u: nat, c: nat, x: int)
    requires Ready(g, p, u)
  {
    InRange(x, c) && Evaluated(g, p, u, x)
  }

  ghost function EvaluatedBelow(g: Network, p: Labels, u: nat, c: nat): iset<int>
    requires Ready(g, p, u)
  {
    iset x: int | LookedAt(g, p, u, c, x)
  }

  /** With m2 below 10^12 the scan finds the smallest label of highest positive score. */
  lemma {:induction false} ScanIsBest(g: Network, p: Labels, u: nat, c: nat)
    requires Ready(g, p, u) && 0 < g.m2 < TOLERANCE_INVERSE && c <= g.n
    ensures IsBest(Candidates(g, p, u), p[u], EvaluatedBelow(g, p, u, c), Scan(g, p, u, c).0, Scan(g, p, u, c).1)
  {
    hide Evaluated, Exceeds, Candidates;
    if c == 0 {
    } else {
      ScanIsBest(g, p, u, c - 1);
      ToleranceIsStrict(g.m2);
      var before, after := EvaluatedBelow(g, p, u, c - 1), EvaluatedBelow(g, p, u, c);
      forall x: int ensures x in after <==> x in before || (x == c - 1 && Evaluated(g, p, u, x)) {
        assert LookedAt(g, p, u, c, x) <==> LookedAt(g, p, u, c - 1, x) || (x == c - 1 && Evaluated(g, p, u, x));
      }
    }
  }

  /** So what the code takes is the choice. */
  lemma TakenIsChoice(g: Network, p: Labels, u: nat)
    requires Ready(g, p, u) && 0 < g.m2 < TOLERANCE_INVERSE
    ensures Taken(g, p, u) == Choice(g, p, u)
  {
    hide Candidates, Choice, Scan;
    ScanIsBest(g, p, u, g.n);
    var cs := EvaluatedBelow(g, p, u, g.n);
    assert LookedAt(g, p, u, g.n, p[u]);
    forall v: nat | v < g.n && Linked(g, u, v) ensures p[v] in cs {
      assert LookedAt(g, p, u, g.n, p[v]);
    }
    forall x | x in cs ensures x in Below(g.n) {
      assert LookedAt(g, p, u, g.n, x);
    }
    ChoiceAmongLinked(g, p, u, cs, Scan(g, p, u, g.n).0, Scan(g, p, u, g.n).1);
  }

  ghost predicate AllCandidates(g: Network, p: Labels, u: nat, s: seq<nat>)
    requires Ready(g, p, u)
  {
    forall c :: c in s <==> c == p[u] || c in LabelsOf(p, g.adj[u].Keys)
  }

  lemma CandidatesAreEvaluated(g: Network, p: Labels, u: nat, s: seq<nat>, c: nat)
    requires Ready(g, p, u) && AllCandidates(g, p, u, s)
    ensures c in s <==> Evaluated(g, p, u, c)
  {
    if c in LabelsOf(p, g.adj[u].Keys) {
      var v: nat :| v in g.adj[u].Keys && v < |p| && p[v] == c;
      assert Linked(g, u, v);
    }
    if Evaluated(g, p, u, c) && c != p[u] {
      var v: nat :| v < g.n && Linked(g, u, v) && p[v] == c;
      assert v in g.adj[u].Keys;
    }
  }

  /** How far the scan is after i of the sorted candidates. */
  ghost function ScannedTo(s: seq<nat>, i: nat): nat
    requires i <= |s|
  {
    if i == 0 then 0 else s[i - 1] + 1
  }

  /** Before the next new candidate no label is looked at; a candidate seen before is the one just reached. */
  lemma NextCandidate(g: Network, p: Labels, u: nat, s: seq<nat>, i: nat)
    requires Ready(g, p, u) && g.m2 > 0 && AllCandidates(g, p, u, s) && Sorted(s) && i < |s| && s[i] < g.n
    ensures if s[i] in s[..i] then ScannedTo(s, i + 1) == ScannedTo(s, i)
      else ScannedTo(s, i) <= s[i] && Evaluated(g, p, u, s[i]) && Scan(g, p, u, s[i]) == Scan(g, p, u, ScannedTo(s, i))
  {
    hide Scan, Evaluated, AllCandidates;
    if s[i] in s[..i] {
      var j :| 0 <= j < i && s[..i][j] == s[i];
      assert s[j] <= s[i - 1] <= s[i];
    } else {
      assert i > 0 ==> s[i - 1] <= s[i] && s[i - 1] == s[..i][i - 1];
      CandidatesAreEvaluated(g, p, u, s, s[i]);
      forall x | ScannedTo(s, i) <= x < s[i] ensures !Evaluated(g, p, u, x) {
        CandidatesAreEvaluated(g, p, u, s, x);
        Between(s, i, x);
      }
      ScanSkips(g, p, u, ScannedTo(s, i), s[i]);
    }
  }

  lemma Between(s: seq<nat>, i: nat, x: nat)
    requires Sorted(s) && i <= |s| && ScannedTo(s, i) <= x && (i < |s| ==> x < s[i])
    ensures x !in s
  {
  }

  lemma NoMoreCandidates(g: Network, p: Labels, u: nat, s: seq<nat>)
    requires Ready(g, p, u) && g.m2 > 0 && AllCandidates(g, p, u, s) && Sorted(s) && ScannedTo(s, |s|) <= g.n
    ensures Scan(g, p, u, ScannedTo(s, |s|)) == Scan(g, p, u, g.n)
  {
    hide Scan, Evaluated, AllCandidates;
    forall x | ScannedTo(s, |s|) <= x < g.n ensures !Evaluated(g, p, u, x) {
      CandidatesAreEvaluated(g, p, u, s, x);
      Between(s, |s|, x);
    }
    ScanSkips(g, p, u, ScannedTo(s, |s|), g.n);
  }

  /** The communities to evaluate for u, ascending, and the weight to each. */
  method CandidateWeights(lg: LouvainGraph, lab: array<nat>, u: nat, ghost g: Network, ghost p: Labels)
    returns (w: map<nat, nat>, candidates: seq<nat>)
    requires Reads(lg, lab, g, p) && Ready(g, p, u)
    ensures AllCandidates(g, p, u, candidates) && Sorted(candidates)
    ensures forall c | c in candidates :: c < g.n && c in w && w[c] == CreditedWeight(g, p, u, c)
  {
    hide WeightTo, Sorted;
    var cu := lab[u];
    w := NeighbourWeights(lg, lab, u, g, p);
    w := w[cu := Get(w, cu) + lg.selfLoop[u]];
    var list := AppendKeys(cu, w);
    candidates := SortInts(list);
    SortIntsSorts(list);
  }

  /** The loop over the sorted candidates takes what the scan of all labels takes. */
  method BestCommunity(lg: LouvainGraph, lab: array<nat>, commTot: array<int>, u: nat, ghost g: Network, ghost p: Labels)
    returns (bestC: nat)
    requires Reads(lg, lab, g, p) && Ready(g, p, u) && 0 < g.m2
    requires commTot.Length == g.n && forall c | 0 <= c < g.n :: commTot[c] == TotalWithout(g, p, u, c)
    ensures bestC == Taken(g, p, u)
    ensures g.m2 < TOLERANCE_INVERSE ==> bestC == Choice(g, p, u)
  {
    hide WeightTo, TotalWithout, Choice, Candidates, GainOf, Exceeds, Sorted, CreditedWeight, AllCandidates, Evaluated;
    var wToComm, candidates := CandidateWeights(lg, lab, u, g, p);
    bestC := lab[u];
    var bestGain := 0.0;
    ghost var best := 0;
    NoGain(g.m2);
    var seen: set<nat> := {};
    for i := 0 to |candidates|
      invariant forall c: nat :: c in seen <==> c in candidates[..i]
      invariant ScannedTo(candidates, i) <= g.n && bestGain == GainOf(best, g.m2)
      invariant (bestC, best) == Scan(g, p, u, ScannedTo(candidates, i))
    {
      var c := candidates[i];
      assert c in candidates && candidates[..i + 1] == candidates[..i] + [c];
      NextCandidate(g, p, u, candidates, i);
      if c in seen {
        continue;
      }
      seen := seen + {c};
      var gain := wToComm[c] as real - (commTot[c] * lg.degree[u]) as real / lg.m2 as real;
      GainTest(g, p, u, c, wToComm[c], commTot[c], best);
      if gain > bestGain + TOLERANCE {
        bestGain, bestC, best := gain, c, Candidates(g, p, u)(c);
      }
    }
    NoMoreCandidates(g, p, u, candidates);
    if g.m2 < TOLERANCE_INVERSE { TakenIsChoice(g, p, u); }
  }

  lemma NoGain(m2: int)
    requires m2 > 0
    ensures GainOf(0, m2) == 0.0
  {
  }

  /* ---- the sweeps ---- */

  ghost function CommTotal(g: Graph, p: Labels, c: int): int {
    Sum(g.n, Fibre(LabelAt(p), Deg(g), c))
  }

  lemma TotalWithoutOne(g: Network, p: Labels, u: nat, c: int)
    requires Ready(g, p, u)
    ensures CommTotal(g, p, c) == TotalWithout(g, p, u, c) + if p[u] == c then g.degree[u] else 0
  {
    var all, others := Fibre(LabelAt(p), Deg(g), c), Others(p, u, c, Deg(g));
    assert LabelAt(p)(u) == p[u] && Deg(g)(u) == g.degree[u];
    SumDelta(g.n, others, all, u, if p[u] == c then g.degree[u] else 0);
  }

  /** The total of the other members does not depend on where u is. */
  lemma TotalWithoutSame(g: Network, p: Labels, u: nat, b: nat, c: int)
    requires Ready(g, p, u)
    ensures TotalWithout(g, p[u := b], u, c) == TotalWithout(g, p, u, c)
  {
    SumExt(g.n, Others(p[u := b], u, c, Deg(g)), Others(p, u, c, Deg(g)));
  }

  lemma SingletonTotals(g: Network, c: nat)
    requires c < g.n
    ensures CommTotal(g, Singletons(g.n), c) == g.degree[c]
  {
    var f := Fibre(LabelAt(Singletons(g.n)), Deg(g), c);
    assert f(c) == g.degree[c];
    SumZero(g.n, x => 0);
    SumDelta(g.n, x => 0, f, c, g.degree[c]);
  }

  ghost predicate TotalsKept(g: Network, p: Labels, commTot: array<int>)
    reads commTot
  {
    commTot.Length == g.n && forall c | 0 <= c < g.n :: commTot[c] == CommTotal(g, p, c)
  }

  /** Takes u out of its community, finds the one to take, and puts it there. */
  method MoveNode(lg: LouvainGraph, lab: array<nat>, commTot: array<int>, u: nat, ghost g: Network, ghost p: Labels)
    returns (moved: bool)
    requires Reads(lg, lab, g, p) && Ready(g, p, u) && 0 < g.m2 && TotalsKept(g, p, commTot)
    requires lab != lg.selfLoop && lab != lg.degree
    modifies lab, commTot
    ensures Reads(lg, lab, g, p[u := Taken(g, p, u)]) && TotalsKept(g, p[u := Taken(g, p, u)], commTot)
    ensures moved <==> Taken(g, p, u) != p[u]
  {
    hide CommTotal, TotalWithout, Choice, Taken;
    var cu := lab[u];
    forall c | 0 <= c < g.n
      ensures commTot[c] == TotalWithout(g, p, u, c) + if p[u] == c then g.degree[u] else 0 {
      TotalWithoutOne(g, p, u, c);
    }
    commTot[cu] := commTot[cu] - lg.degree[u];
    var bestC := BestCommunity(lg, lab, commTot, u, g, p);
    commTot[bestC] := commTot[bestC] + lg.degree[u];
    moved := bestC != cu;
    if bestC != cu {
      lab[u] := bestC;
    }
    ghost var q := p[u := bestC];
    assert lab[..] == q;
    forall c | 0 <= c < g.n ensures commTot[c] == CommTotal(g, q, c) {
      TotalWithoutOne(g, q, u, c);
      TotalWithoutSame(g, p, u, bestC, c);
    }
  }

  /** The sweep that the code makes, for any m2. */
  ghost function TakingSweep(g: Network, p: Labels, u: nat): (q: Labels)
    requires Labelling(g, p) && u <= g.n && g.m2 > 0
    ensures Labelling(g, q)
    decreases g.n - u
  {
    if u == g.n then p else TakingSweep(g, p[u := Taken(g, p, u)], u + 1)
  }

  lemma {:induction false} TakingSweepIsSweep(g: Network, p: Labels, u: nat)
    requires Labelling(g, p) && u <= g.n && 0 < g.m2 < TOLERANCE_INVERSE
    ensures TakingSweep(g, p, u) == Sweep(g, p, u)
    decreases g.n - u
  {
    hide Taken, Choice;
    if u < g.n {
      TakenIsChoice(g, p, u);
      TakingSweepIsSweep(g, p[u := Taken(g, p, u)], u + 1);
    }
  }

  /** One sweep over all nodes. */
  method SweepNodes(lg: LouvainGraph, lab: array<nat>, commTot: array<int>, ghost g: Network, ghost p: Labels)
    returns (moved: bool)
    requires Reads(lg, lab, g, p) && Labelling(g, p) && 0 < g.m2 && TotalsKept(g, p, commTot)
    requires lab != lg.selfLoop && lab != lg.degree
    modifies lab, commTot
    ensures Reads(lg, lab, g, TakingSweep(g, p, 0)) && TotalsKept(g, TakingSweep(g, p, 0), commTot)
    ensures moved <==> TakingSweep(g, p, 0) != p
    ensures g.m2 < TOLERANCE_INVERSE ==> TakingSweep(g, p, 0) == Sweep(g, p, 0)
  {
    hide Taken, TotalsKept;
    moved := false;
    ghost var q: Labels := p;
    for u := 0 to lg.n
      invariant Reads(lg, lab, g, q) && Labelling(g, q) && TotalsKept(g, q, commTot)
      invariant TakingSweep(g, q, u) == TakingSweep(g, p, 0)
      invariant forall x | u <= x < g.n :: q[x] == p[x]
      invariant moved <==> q != p
    {
      var m := MoveNode(lg, lab, commTot, u, g, q);
      if m { moved := true; }
      q := q[u := Taken(g, q, u)];
      assert q[u] != p[u] ==> q != p;
    }
    if g.m2 < TOLERANCE_INVERSE { TakingSweepIsSweep(g, p, 0); }
  }

  /* ---- where the tolerance costs modularity ---- */

  /** Node 2 linked to the others, and self-loops on 0 and 3 that make m2 exactly 10^12. */
  const EDGE_CASE := Graph(4, [map[2 := 14], map[2 := 1], map[0 := 14, 1 := 1, 3 := 2], map[2 := 2]],
                           [382352941170, 0, 0, 117647058813], [764705882354, 1, 17, 235294117628], TOLERANCE_INVERSE)

  /** The labels when the first sweep comes to node 2. */
  const AT_TWO: Labels := [0, 2, 2, 3]

  lemma SumOfFour(f: int -> int)
    ensures Sum(4, f) == f(0) + f(1) + f(2) + f(3)
  {
    assert Sum(4, f) == Sum(3, f) + f(3) && Sum(3, f) == Sum(2, f) + f(2);
    SumOfTwo(f);
  }

  ghost predicate TwoAnd(u: int, v: int, x: int) {
    (u == 2 && v == x) || (v == 2 && u == x)
  }

  lemma EdgeCaseLinks(u: int, v: int)
    ensures Linked(EDGE_CASE, u, v) <==> TwoAnd(u, v, 0) || TwoAnd(u, v, 1) || TwoAnd(u, v, 3)
    ensures Weight(EDGE_CASE, u, v) == if TwoAnd(u, v, 0) then 14 else if TwoAnd(u, v, 1) then 1 else if TwoAnd(u, v, 3) then 2 else 0
  {
  }

  lemma EdgeCaseRow(u: int)
    requires 0 <= u < 4
    ensures EDGE_CASE.degree[u] == Sum(4, Row(Adjacency(EDGE_CASE), u))
  {
    hide Linked, Weight;
    SumOfFour(Row(Adjacency(EDGE_CASE), u));
    EdgeCaseLinks(u, 0);
    EdgeCaseLinks(u, 1);
    EdgeCaseLinks(u, 2);
    EdgeCaseLinks(u, 3);
  }

  lemma EdgeCaseIsWellFormed()
    ensures WellFormed(EDGE_CASE)
  {
    hide Linked, Weight;
    forall u, v ensures Linked(EDGE_CASE, u, v) ==> v < 4 && v != u && Linked(EDGE_CASE, v, u) {
      EdgeCaseLinks(u, v);
      EdgeCaseLinks(v, u);
    }
    forall u, v ensures Weight(EDGE_CASE, u, v) == Weight(EDGE_CASE, v, u) {
      EdgeCaseLinks(u, v);
      EdgeCaseLinks(v, u);
    }
    forall u | 0 <= u < 4 ensures EDGE_CASE.degree[u] == Sum(4, Row(Adjacency(EDGE_CASE), u)) {
      EdgeCaseRow(u);
    }
    SumOfFour(Deg(EDGE_CASE));
  }

  /** x when the node is a member of the community and not the one that is moving. */
  ghost function IfMember(other: bool, x: int): int {
    if other then x else 0
  }

  lemma EdgeCaseWeight(p: Labels, u: int, c: int)
    requires |p| == 4 && 0 <= u < 4
    ensures WeightTo(EDGE_CASE, p, u, c) ==
      if u == 2 then IfMember(p[0] == c, 14) + IfMember(p[1] == c, 1) + IfMember(p[3] == c, 2)
      else IfMember(p[2] == c, if u == 0 then 14 else if u == 1 then 1 else 2)
  {
    hide Linked, Weight;
    SumOfFour(Others(p, u, c, Row(Adjacency(EDGE_CASE), u)));
    EdgeCaseLinks(u, 0);
    EdgeCaseLinks(u, 1);
    EdgeCaseLinks(u, 2);
    EdgeCaseLinks(u, 3);
  }

  lemma EdgeCaseTotal(p: Labels, u: int, c: int)
    requires |p| == 4
    ensures TotalWithout(EDGE_CASE, p, u, c) ==
      IfMember(u != 0 && p[0] == c, 764705882354) + IfMember(u != 1 && p[1] == c, 1)
        + IfMember(u != 2 && p[2] == c, 17) + IfMember(u != 3 && p[3] == c, 235294117628)
  {
    SumOfFour(Others(p, u, c, Deg(EDGE_CASE)));
  }

  /** A score from its weight, its total and the degree. */
  lemma ScoreFrom(p: Labels, u: int, c: int, w: int, t: int, deg: int)
    requires |p| == 4 && WeightTo(EDGE_CASE, p, u, c) == w && TotalWithout(EDGE_CASE, p, u, c) == t && Deg(EDGE_CASE)(u) == deg
    ensures Score(EDGE_CASE, p, u, c) == TOLERANCE_INVERSE * w - t * deg
  {
  }

  /** The scores that matter when the first sweep comes to node 0. */
  lemma ZeroScores(p: Labels)
    requires |p| == 4 && p[0] == 0 && p[1] == 1 && p[2] == 2 && p[3] == 3
    ensures Score(EDGE_CASE, p, 0, 0) == 0 && Score(EDGE_CASE, p, 0, 2) == TOLERANCE_INVERSE - 18
  {
    hide Score, WeightTo, TotalWithout;
    EdgeCaseWeight(p, 0, 0);
    EdgeCaseTotal(p, 0, 0);
    ScoreFrom(p, 0, 0, 0, 0, 764705882354);
    EdgeCaseWeight(p, 0, 2);
    EdgeCaseTotal(p, 0, 2);
    ScoreFrom(p, 0, 2, 14, 17, 764705882354);
  }

  /** To node 1. */
  lemma OneScores(p: Labels)
    requires |p| == 4 && p[0] == 0 && p[1] == 1 && p[2] == 2 && p[3] == 3
    ensures Score(EDGE_CASE, p, 1, 1) == 0 && Score(EDGE_CASE, p, 1, 2) == TOLERANCE_INVERSE - 17
  {
    hide Score, WeightTo, TotalWithout;
    EdgeCaseWeight(p, 1, 1);
    EdgeCaseTotal(p, 1, 1);
    ScoreFrom(p, 1, 1, 0, 0, 1);
    EdgeCaseWeight(p, 1, 2);
    EdgeCaseTotal(p, 1, 2);
    ScoreFrom(p, 1, 2, 1, 17, 1);
  }

  /** And to node 2. */
  lemma TwoScores(p: Labels)
    requires |p| == 4 && p[0] == 0 && p[1] == 2 && p[2] == 2 && p[3] == 3
    ensures Score(EDGE_CASE, p, 2, 0) == TOLERANCE_INVERSE - 18 && Score(EDGE_CASE, p, 2, 2) == TOLERANCE_INVERSE - 17
    ensures Score(EDGE_CASE, p, 2, 3) < 0
  {
    hide Score, WeightTo, TotalWithout;
    EdgeCaseWeight(p, 2, 0);
    EdgeCaseTotal(p, 2, 0);
    ScoreFrom(p, 2, 0, 14, 764705882354, 17);
    EdgeCaseWeight(p, 2, 2);
    EdgeCaseTotal(p, 2, 2);
    ScoreFrom(p, 2, 2, 1, 1, 17);
    EdgeCaseWeight(p, 2, 3);
    EdgeCaseTotal(p, 2, 3);
    ScoreFrom(p, 2, 3, 2, 235294117628, 17);
  }

  lemma EdgeCaseEvaluated(p: Labels, u: nat, c: int)
    requires WellFormed(EDGE_CASE) && Ready(EDGE_CASE, p, u)
    ensures Evaluated(EDGE_CASE, p, u, c) <==> c == p[u] || if u == 2 then c == p[0] || c == p[1] || c == p[3] else c == p[2]
  {
    hide Linked;
    forall v: nat ensures Linked(EDGE_CASE, u, v) <==> if u == 2 then v == 0 || v == 1 || v == 3 else v == 2 && u < 4 {
      EdgeCaseLinks(u, v);
    }
  }

  /** One label of the scan. */
  lemma ScanStep(g: Network, p: Labels, u: nat, c: nat, looked: bool, score: int)
    requires Ready(g, p, u) && g.m2 > 0 && c < g.n && (Evaluated(g, p, u, c) <==> looked)
    requires looked ==> score == Score(g, p, u, c) + if c == p[u] then g.m2 * Loop(g, u) else 0
    ensures var best := Scan(g, p, u, c);
      Scan(g, p, u, c + 1) == if looked && (score - best.1) * TOLERANCE_INVERSE > g.m2 then (c, score) else best
  {
    hide Score, Evaluated, Exceeds;
    ExceedsByTolerance(score, Scan(g, p, u, c).1, g.m2);
    assert LabelAt(p)(u) == p[u];
  }

  /** Node 0 stays. */
  lemma NodeZeroStays()
    requires WellFormed(EDGE_CASE)
    ensures Taken(EDGE_CASE, Singletons(4), 0) == 0
  {
    hide Score, Evaluated, Scan;
    var g, p := EDGE_CASE, Singletons(4);
    ZeroScores(p);
    forall c ensures Evaluated(g, p, 0, c) <==> c == 0 || c == 2 { EdgeCaseEvaluated(p, 0, c); }
    ScanStarts(g, p, 0);
    ScanStep(g, p, 0, 0, true, TOLERANCE_INVERSE * 382352941170);
    ScanStep(g, p, 0, 1, false, 0);
    ScanStep(g, p, 0, 2, true, TOLERANCE_INVERSE - 18);
    ScanStep(g, p, 0, 3, false, 0);
  }

  /** Node 1 joins node 2. */
  lemma NodeOneJoinsTwo()
    requires WellFormed(EDGE_CASE)
    ensures Taken(EDGE_CASE, Singletons(4), 1) == 2
  {
    hide Score, Evaluated, Scan;
    var g, p := EDGE_CASE, Singletons(4);
    OneScores(p);
    forall c ensures Evaluated(g, p, 1, c) <==> c == 1 || c == 2 { EdgeCaseEvaluated(p, 1, c); }
    ScanStarts(g, p, 1);
    ScanStep(g, p, 1, 0, false, 0);
    ScanStep(g, p, 1, 1, true, 0);
    ScanStep(g, p, 1, 2, true, TOLERANCE_INVERSE - 17);
    ScanStep(g, p, 1, 3, false, 0);
  }

  /** Node 2 leaves node 1 for node 0, whose community comes first and scores 1 less. */
  lemma NodeTwoLeaves()
    requires WellFormed(EDGE_CASE)
    ensures Taken(EDGE_CASE, AT_TWO, 2) == 0
  {
    hide Score, Evaluated, Scan;
    var g, p := EDGE_CASE, AT_TWO;
    TwoScores(p);
    forall c ensures Evaluated(g, p, 2, c) <==> c == 0 || c == 2 || c == 3 { EdgeCaseEvaluated(p, 2, c); }
    ScanStarts(g, p, 2);
    ScanStep(g, p, 2, 0, true, TOLERANCE_INVERSE - 18);
    ScanStep(g, p, 2, 1, false, 0);
    ScanStep(g, p, 2, 2, true, TOLERANCE_INVERSE - 17);
    ScanStep(g, p, 2, 3, true, Score(g, p, 2, 3));
  }

  lemma ScanStarts(g: Network, p: Labels, u: nat)
    requires Ready(g, p, u) && g.m2 > 0
    ensures Scan(g, p, u, 0) == (p[u], 0)
  {
  }

  /**
   * At m2 = 10^12, where the tolerance first differs from a strict comparison, it already costs modularity: in the first
   * sweep over this graph node 0 stays, node 1 joins node 2, and node 2 moves to a community that is worse for it.
   */
  lemma ToleranceCostsModularity()
    ensures WellFormed(EDGE_CASE) && EDGE_CASE.m2 == TOLERANCE_INVERSE
    ensures TakingSweep(EDGE_CASE, Singletons(4), 0) == TakingSweep(EDGE_CASE, AT_TWO, 2)
    ensures Taken(EDGE_CASE, AT_TWO, 2) == 0 && Modularity(EDGE_CASE, AT_TWO[2 := 0]) < Modularity(EDGE_CASE, AT_TWO)
  {
    hide Score, Modularity, Taken, TakingSweep;
    EdgeCaseIsWellFormed();
    NodeZeroStays();
    NodeOneJoinsTwo();
    NodeTwoLeaves();
    SweepToTwo(EDGE_CASE);
    NodeTwoLoses();
  }

  lemma SweepToTwo(g: Network)
    requires g.n == 4 && g.m2 > 0 && Taken(g, Singletons(4), 0) == 0 && Taken(g, Singletons(4), 1) == 2
    ensures TakingSweep(g, Singletons(4), 0) == TakingSweep(g, AT_TWO, 2)
  {
    hide Taken;
    var p := Singletons(4);
    assert p[0 := 0] == p && p[1 := 2] == AT_TWO;
    assert TakingSweep(g, p, 0) == TakingSweep(g, p, 1) == TakingSweep(g, AT_TWO, 2);
  }

  lemma NodeTwoLoses()
    requires Shaped(EDGE_CASE)
    ensures Modularity(EDGE_CASE, AT_TWO[2 := 0]) < Modularity(EDGE_CASE, AT_TWO)
  {
    hide Score, Modularity, Shaped;
    TwoScores(AT_TWO);
    MoveChangesModularity(EDGE_CASE, AT_TWO, 2, 0);
  }

  /** Local moving until a sweep moves nothing. */
  method LouvainOnePass(lg: LouvainGraph) returns (lab: array<nat>, improved: bool)
    requires lg.Valid() && WellFormed(lg.View()) && lg.m2 < TOLERANCE_INVERSE
    ensures fresh(lab) && lab[..] == PassLabels(lg.View())
    ensures improved <==> PassLabels(lg.View()) != Singletons(lg.n)
  {
    ghost var g: Network := lg.View();
    lab := new nat[lg.n](i => i);
    var commTot := new int[lg.n];
    for i := 0 to lg.n
      invariant forall c | 0 <= c < i :: commTot[c] == lg.degree[c]
      invariant Reads(lg, lab, g, Singletons(lg.n))
    {
      commTot[i] := lg.degree[i];
    }
    improved := false;
    if lg.m2 == 0 {
      NoWeightNoMoves(g);
      return;
    }
    forall c | 0 <= c < g.n ensures commTot[c] == CommTotal(g, Singletons(g.n), c) {
      SingletonTotals(g, c);
    }
    ghost var p: Labels := Singletons(g.n);
    while true
      invariant Reads(lg, lab, g, p) && Labelling(g, p) && TotalsKept(g, p, commTot)
      invariant PassFrom(g, p) == PassLabels(g)
      invariant if improved then Better(g, Singletons(g.n), p) else p == Singletons(g.n)
      decreases g.m2 * g.m2 - Modularity(g, p), LabelSum(g, p)
    {
      hide Modularity, LabelSum, TotalsKept;
      LabelSumNonneg(g, p);
      var moved := SweepNodes(lg, lab, commTot, g, p);
      if !moved {
        break;
      }
      improved := true;
      SweepProgresses(g, p);
      p := Sweep(g, p, 0);
    }
  }

  /** Without edges no score is positive and no node moves. */
  lemma NoWeightNoMoves(g: Network)
    requires g.m2 == 0
    ensures PassLabels(g) == Singletons(g.n)
  {
    if PassLabels(g) != Singletons(g.n) {
      var e := PassThatMoves(g);
      NoWeightNoModularity(g, PassLabels(g));
      NoWeightNoModularity(g, Singletons(g.n));
    }
  }

  lemma NoWeightNoModularity(g: Network, p: Labels)
    requires g.m2 == 0
    ensures Modularity(g, p) == 0
  {
    forall u, v | 0 <= u < g.n && 0 <= v < g.n ensures Together(Bond(g), p)(u, v) == 0 {
      SumTerm(g.n, Deg(g), u);
      BondIs(g, u, v);
    }
    Sum2Zero(g.n, g.n, Together(Bond(g), p));
  }
}
