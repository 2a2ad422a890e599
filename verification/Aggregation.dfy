/**
 * The second phase of Louvain as functions of the graph's value: renumbering the labels densely and
 * collapsing each community into one node. Collapsing preserves modularity exactly.
 */
module Aggregation {
  import opened Sums
  import opened WeightedGraph

  /* ---- dense labels ---- */

  ghost function Elems(p: Labels): set<nat> {
    set l | l in p
  }

  /** Labels renumbered 0, 1, ... in order of first appearance, with the number of different ones. */
  ghost function Dense(p: Labels): (r: (Labels, nat))
    ensures |r.0| == |p|
  {
    if |p| == 0 then ([], 0)
    else
      var (out, k) := Dense(p[..|p| - 1]);
      var l := p[|p| - 1];
      if l in p[..|p| - 1] then (out + [out[FirstIndex(p[..|p| - 1], l)]], k) else (out + [k], k + 1)
  }

  ghost function FirstIndex(p: Labels, l: nat): (i: nat)
    requires l in p
    ensures i < |p| && p[i] == l
  {
    if p[0] == l then 0 else 1 + FirstIndex(p[1..], l)
  }

  ghost predicate UsedBefore(out: Labels, i: nat, c: nat) {
    exists j :: 0 <= j < i && j < |out| && out[j] == c
  }

  /** out has the kernel of p, uses exactly the labels below k, and uses each for the first time in ascending order. */
  ghost predicate IsRenumbering(p: Labels, out: Labels, k: nat) {
    && SameKernel(p, out)
    && (forall i | 0 <= i < |out| :: out[i] < k)
    && (forall c: nat | c < k :: UsedBefore(out, |out|, c))
    && (forall i, c: nat | 0 <= i < |out| && c < out[i] :: UsedBefore(out, i, c))
  }

  lemma {:induction false} DenseIsRenumbering(p: Labels)
    ensures IsRenumbering(p, Dense(p).0, Dense(p).1)
    ensures Dense(p).1 == |Elems(p)|
  {
    if |p| > 0 {
      var front, l := p[..|p| - 1], p[|p| - 1];
      DenseIsRenumbering(front);
      assert p == front + [l];
      if l in front { assert Elems(p) == Elems(front); } else { assert Elems(p) == Elems(front) + {l}; }
      var d, k := Dense(front).0, Dense(front).1;
      RenumberingExtends(front, d, k, l, if l in front then d[FirstIndex(front, l)] else k);
    }
  }

  /** One more node keeps a renumbering if it gets its community's number, or the next one for a new community. */
  lemma RenumberingExtends(p: Labels, out: Labels, k: nat, l: nat, c: nat)
    requires IsRenumbering(p, out, k)
    requires if l in p then exists j :: 0 <= j < |p| && p[j] == l && out[j] == c else c == k
    ensures IsRenumbering(p + [l], out + [c], if c == k then k + 1 else k)
  {
    var out', k' := out + [c], if c == k then k + 1 else k;
    forall i, x: nat | 0 <= i < |out'| && x < out'[i] ensures UsedBefore(out', i, x) {
      if i < |out| {
        assert out'[i] == out[i] && UsedBefore(out, i, x);
        var j :| 0 <= j < i && j < |out| && out[j] == x;
        assert out'[j] == x;
      } else {
        assert UsedBefore(out, |out|, x);
        var j :| 0 <= j < |out| && out[j] == x;
        assert out'[j] == x;
      }
    }
    forall x: nat | x < k' ensures UsedBefore(out', |out'|, x) {
      if x < k {
        assert UsedBefore(out, |out|, x);
        var j :| 0 <= j < |out| && out[j] == x;
        assert out'[j] == x;
      } else {
        assert out'[|out|] == x;
      }
    }
  }

  lemma {:induction false} RenumberingAgrees(p: Labels, o1: Labels, k1: nat, o2: Labels, k2: nat, i: nat)
    requires IsRenumbering(p, o1, k1) && IsRenumbering(p, o2, k2) && i <= |p|
    ensures forall j | 0 <= j < i :: o1[j] == o2[j]
  {
    if i == 0 {
    } else {
      var m := i - 1;
      RenumberingAgrees(p, o1, k1, o2, k2, m);
      assert o1[m] < o2[m] ==> UsedBefore(o2, m, o1[m]);
      assert o2[m] < o1[m] ==> UsedBefore(o1, m, o2[m]);
    }
  }

  lemma KernelTransitive(p: Labels, q: Labels, r: Labels)
    requires SameKernel(p, q) && SameKernel(q, r)
    ensures SameKernel(p, r)
  {
    forall u, v | 0 <= u < |p| && 0 <= v < |p| ensures p[u] == p[v] <==> r[u] == r[v] {
      assert p[u] == p[v] <==> q[u] == q[v];
    }
  }

  lemma RenumberingUnique(p: Labels, q: Labels, o1: Labels, k1: nat, o2: Labels, k2: nat)
    requires SameKernel(p, q) && IsRenumbering(p, o1, k1) && IsRenumbering(q, o2, k2)
    ensures o1 == o2 && k1 == k2
  {
    assert IsRenumbering(p, o2, k2) by { KernelTransitive(p, q, o2); }
    RenumberingAgrees(p, o1, k1, o2, k2, |p|);
    assert k1 < k2 ==> UsedBefore(o2, |o2|, k1);
    assert k2 < k1 ==> UsedBefore(o1, |o1|, k2);
  }

  /** Labellings with the same kernel are renumbered to the same output. */
  lemma DenseIsCanonical(p: Labels, q: Labels)
    requires SameKernel(p, q)
    ensures Dense(p) == Dense(q)
  {
    hide Dense, IsRenumbering, SameKernel;
    DenseIsRenumbering(p);
    DenseIsRenumbering(q);
    RenumberingUnique(p, q, Dense(p).0, Dense(p).1, Dense(q).0, Dense(q).1);
  }

  lemma {:induction false} RangeSize(n: nat, s: set<nat>)
    requires forall l | l in s :: InRange(l, n)
    ensures |s| <= n
  {
    if n == 0 {
    } else {
      RangeSize(n - 1, s - {n - 1});
      if n - 1 !in s { assert s - {n - 1} == s; }
    }
  }

  /** With a label below n that no node has, fewer than n communities are left. */
  lemma UnusedLabelShrinks(p: Labels, n: nat, e: nat)
    requires e < n && e !in p && forall i | 0 <= i < |p| :: p[i] < n
    ensures Dense(p).1 < n
  {
    DenseIsRenumbering(p);
    RangeSize(n, Elems(p) + {e});
  }

  /* ---- block sums ---- */

  /** b restricted to rows labelled c and columns labelled d. */
  ghost function InBlock(b: (int, int) -> int, p: Labels, c: int, d: int): (int, int) -> int {
    (u, v) => if LabelAt(p)(u) == c && LabelAt(p)(v) == d then b(u, v) else 0
  }

  ghost function Blocks(b: (int, int) -> int, p: Labels): (int, int) -> int {
    (c, d) => Sum2(|p|, |p|, InBlock(b, p, c, d))
  }

  ghost predicate Onto(p: Labels, k: nat) {
    forall u | 0 <= u < |p| :: p[u] < k
  }

  /** Row c of the blocks sums the rows of the members of c. */
  lemma BlockRow(b: (int, int) -> int, p: Labels, k: nat, c: int)
    requires Onto(p, k)
    ensures Sum(k, Row(Blocks(b, p), c)) == Sum(|p|, Fibre(LabelAt(p), RowSums(|p|, b), c))
  {
    var n := |p|;
    var byMember := (d, u) => if LabelAt(p)(u) == c then Sum(n, Fibre(LabelAt(p), Row(b, u), d)) else 0;
    forall d | 0 <= d < k ensures Row(Blocks(b, p), c)(d) == RowSums(n, byMember)(d) {
      forall u | 0 <= u < n ensures RowSums(n, InBlock(b, p, c, d))(u) == Row(byMember, d)(u) {
        if LabelAt(p)(u) == c {
          SumExt(n, Row(InBlock(b, p, c, d), u), Fibre(LabelAt(p), Row(b, u), d));
        } else {
          SumZero(n, Row(InBlock(b, p, c, d), u));
        }
      }
      SumExt(n, RowSums(n, InBlock(b, p, c, d)), Row(byMember, d));
    }
    SumExt(k, Row(Blocks(b, p), c), RowSums(n, byMember));
    SumSwap(k, n, byMember);
    forall u | 0 <= u < n ensures RowSums(k, Flip(byMember))(u) == Fibre(LabelAt(p), RowSums(n, b), c)(u) {
      if LabelAt(p)(u) == c {
        SumByFibre(n, k, LabelAt(p), Row(b, u));
        SumExt(k, Row(Flip(byMember), u), FibreSums(n, LabelAt(p), Row(b, u)));
      } else {
        SumZero(k, Row(Flip(byMember), u));
      }
    }
    SumExt(n, RowSums(k, Flip(byMember)), Fibre(LabelAt(p), RowSums(n, b), c));
  }

  /** Summing block by block sums everything once. */
  lemma SumByBlocks(b: (int, int) -> int, p: Labels, k: nat)
    requires Onto(p, k)
    ensures Sum2(k, k, Blocks(b, p)) == Sum2(|p|, |p|, b)
  {
    forall c | 0 <= c < k ensures RowSums(k, Blocks(b, p))(c) == FibreSums(|p|, LabelAt(p), RowSums(|p|, b))(c) {
      BlockRow(b, p, k, c);
    }
    SumExt(k, RowSums(k, Blocks(b, p)), FibreSums(|p|, LabelAt(p), RowSums(|p|, b)));
    SumByFibre(|p|, k, LabelAt(p), RowSums(|p|, b));
  }

  ghost function Compose(q: Labels, p: Labels): (r: Labels)
    requires Onto(p, |q|)
    ensures |r| == |p| && forall u | 0 <= u < |p| :: r[u] == q[p[u]]
  {
    seq(|p|, u requires 0 <= u < |p| => q[p[u]])
  }

  /** Grouping the blocks by q groups the nodes by q after p. */
  lemma TogetherByBlocks(b: (int, int) -> int, p: Labels, q: Labels)
    requires Onto(p, |q|)
    ensures Sum2(|q|, |q|, Together(Blocks(b, p), q)) == Sum2(|p|, |p|, Together(b, Compose(q, p)))
  {
    var n, k, r := |p|, |q|, Compose(q, p);
    forall c, d | 0 <= c < k && 0 <= d < k ensures Together(Blocks(b, p), q)(c, d) == Blocks(Together(b, r), p)(c, d) {
      forall u, v | 0 <= u < n && 0 <= v < n
        ensures InBlock(Together(b, r), p, c, d)(u, v) == if q[c] == q[d] then InBlock(b, p, c, d)(u, v) else 0
      {
        assert LabelAt(p)(u) == p[u] && LabelAt(p)(v) == p[v] && LabelAt(r)(u) == q[p[u]] && LabelAt(r)(v) == q[p[v]];
      }
      assert LabelAt(q)(c) == q[c] && LabelAt(q)(d) == q[d];
      if q[c] == q[d] {
        Sum2Ext(n, n, InBlock(Together(b, r), p, c, d), InBlock(b, p, c, d));
      } else {
        Sum2Zero(n, n, InBlock(Together(b, r), p, c, d));
      }
    }
    Sum2Ext(k, k, Together(Blocks(b, p), q), Blocks(Together(b, r), p));
    SumByBlocks(Together(b, r), p, k);
  }

  /** The blocks of blocks are blocks of the composition. */
  lemma BlocksOfBlocks(b: (int, int) -> int, p: Labels, q: Labels, c: int, d: int)
    requires Onto(p, |q|)
    ensures Blocks(Blocks(b, p), q)(c, d) == Blocks(b, Compose(q, p))(c, d)
  {
    var n, k, r := |p|, |q|, Compose(q, p);
    var inside := InBlock(b, r, c, d);
    forall x, y | 0 <= x < k && 0 <= y < k ensures InBlock(Blocks(b, p), q, c, d)(x, y) == Blocks(inside, p)(x, y) {
      BlockInside(b, p, q, c, d, x, y);
    }
    Sum2Ext(k, k, InBlock(Blocks(b, p), q, c, d), Blocks(inside, p));
    SumByBlocks(inside, p, k);
  }

  lemma BlockInside(b: (int, int) -> int, p: Labels, q: Labels, c: int, d: int, x: nat, y: nat)
    requires Onto(p, |q|) && x < |q| && y < |q|
    ensures InBlock(Blocks(b, p), q, c, d)(x, y) == Blocks(InBlock(b, Compose(q, p), c, d), p)(x, y)
  {
    var n, r := |p|, Compose(q, p);
    forall u, v | 0 <= u < n && 0 <= v < n
      ensures InBlock(InBlock(b, r, c, d), p, x, y)(u, v) == if q[x] == c && q[y] == d then InBlock(b, p, x, y)(u, v) else 0
    {
      assert LabelAt(p)(u) == p[u] && LabelAt(p)(v) == p[v] && LabelAt(r)(u) == q[p[u]] && LabelAt(r)(v) == q[p[v]];
    }
    assert LabelAt(q)(x) == q[x] && LabelAt(q)(y) == q[y];
    if q[x] == c && q[y] == d {
      Sum2Ext(n, n, InBlock(InBlock(b, r, c, d), p, x, y), InBlock(b, p, x, y));
    } else {
      Sum2Zero(n, n, InBlock(InBlock(b, r, c, d), p, x, y));
    }
  }

  lemma BlocksExt(a: (int, int) -> int, b: (int, int) -> int, p: Labels, c: int, d: int)
    requires forall u, v | 0 <= u < |p| && 0 <= v < |p| :: a(u, v) == b(u, v)
    ensures Blocks(a, p)(c, d) == Blocks(b, p)(c, d)
  {
    Sum2Ext(|p|, |p|, InBlock(a, p, c, d), InBlock(b, p, c, d));
  }

  /** Alone, a block is one entry. */
  lemma SingletonBlock(b: (int, int) -> int, n: nat, c: int, d: int)
    ensures Blocks(b, Singletons(n))(c, d) == if 0 <= c < n && 0 <= d < n then b(c, d) else 0
  {
    var p := Singletons(n);
    var zero := (u, v) => 0;
    Sum2Zero(n, n, zero);
    forall u, v | 0 <= u < n && 0 <= v < n ensures InBlock(b, p, c, d)(u, v) == if u == c && v == d then b(u, v) else 0 {
      assert LabelAt(p)(u) == u && LabelAt(p)(v) == v;
    }
    if 0 <= c < n && 0 <= d < n {
      Sum2Delta(n, n, zero, InBlock(b, p, c, d), c, d, b(c, d));
    } else {
      Sum2Zero(n, n, InBlock(b, p, c, d));
    }
  }

  /** The labels with community c joined to d. */
  ghost function Joined(p: Labels, c: nat, d: nat): (q: Labels)
    ensures |q| == |p| && forall u | 0 <= u < |p| :: q[u] == if p[u] == c then d else p[u]
  {
    seq(|p|, u requires 0 <= u < |p| => if p[u] == c then d else p[u])
  }

  /** Joining two communities adds the two blocks between them. */
  lemma JoiningAddsBlocks(b: (int, int) -> int, p: Labels, c: nat, d: nat)
    requires c != d
    ensures Sum2(|p|, |p|, Together(b, Joined(p, c, d)))
      == Sum2(|p|, |p|, Together(b, p)) + Blocks(b, p)(c, d) + Blocks(b, p)(d, c)
  {
    var n, q := |p|, Joined(p, c, d);
    var between := (u, v) => InBlock(b, p, c, d)(u, v) + InBlock(b, p, d, c)(u, v);
    forall u, v | 0 <= u < n && 0 <= v < n
      ensures Together(b, q)(u, v) == 1 * Together(b, p)(u, v) + 1 * between(u, v)
    {
      assert LabelAt(p)(u) == p[u] && LabelAt(p)(v) == p[v] && LabelAt(q)(u) == q[u] && LabelAt(q)(v) == q[v];
      assert InBlock(b, p, c, d)(u, v) == if p[u] == c && p[v] == d then b(u, v) else 0;
      assert InBlock(b, p, d, c)(u, v) == if p[u] == d && p[v] == c then b(u, v) else 0;
      assert Together(b, q)(u, v) == if q[u] == q[v] then b(u, v) else 0;
      assert Together(b, p)(u, v) == if p[u] == p[v] then b(u, v) else 0;
    }
    Sum2Linear(n, n, 1, InBlock(b, p, c, d), 1, InBlock(b, p, d, c), between);
    Sum2Linear(n, n, 1, Together(b, p), 1, between, Together(b, q));
  }
}
