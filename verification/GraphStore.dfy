/**
 * The bi-temporal edge table: rows with a valid-time interval, soft invalidation and `as_of` queries.
 *
 * Timestamps are the stored strings, compared as the database compares text; an empty `validUntil` is open and an
 * empty `invalidatedAt` is live. A transaction that fails leaves the table as it was.
 */
module GraphStore {
  import opened Basics
  import opened Lex

  datatype Edge = Edge(id: string, vault: string, source: string, target: string, kind: string, fact: string,
                       validFrom: string, validUntil: string, createdAt: string, invalidatedAt: string)

  datatype EdgeQuery = EdgeQuery(vault: string, kind: string, entityId: string, asOf: string, limit: int)

  /** `parse` is RFC 3339 parsing followed by formatting in UTC; it gives "" for what does not parse. */
  function Normalize(parse: string -> string, s: string): string {
    if s == "" then "" else if parse(s) == "" then s else parse(s)
  }

  /** The row that AddEdge inserts. */
  function Stored(e: Edge, now: string, parse: string -> string): Edge {
    var from := Normalize(parse, e.validFrom);
    e.(validFrom := if from == "" then now else from, validUntil := Normalize(parse, e.validUntil),
       createdAt := now, invalidatedAt := "")
  }

  predicate SameKey(row: Edge, e: Edge) {
    row.vault == e.vault && row.source == e.source && row.kind == e.kind
  }

  predicate Live(row: Edge) {
    row.invalidatedAt == ""
  }

  /** What the invalidating update does to one row when e, already in stored form, is asserted. */
  function Superseded(row: Edge, e: Edge, now: string): Edge {
    if SameKey(row, e) && Live(row) then
      row.(invalidatedAt := now,
           validUntil := if row.validUntil == "" || Less(e.validFrom, row.validUntil) then e.validFrom else row.validUntil)
    else row
  }

  function SupersededAll(rows: seq<Edge>, e: Edge, now: string): (r: seq<Edge>)
    ensures |r| == |rows| && forall i | 0 <= i < |rows| :: r[i] == Superseded(rows[i], e, now)
  {
    seq(|rows|, i requires 0 <= i < |rows| => Superseded(rows[i], e, now))
  }

  predicate HasId(rows: seq<Edge>, id: string) {
    exists i :: 0 <= i < |rows| && rows[i].id == id
  }

  /** The rows after asserting e, already in stored form; unchanged when the insert fails. */
  function Asserted(rows: seq<Edge>, e: Edge, invalidatePrior: bool, now: string): seq<Edge> {
    if e.id == "" || HasId(rows, e.id) then rows
    else (if invalidatePrior then SupersededAll(rows, e, now) else rows) + [e]
  }

  function Invalidated(rows: seq<Edge>, id: string, now: string): (r: seq<Edge>)
    ensures |r| == |rows|
    ensures forall i | 0 <= i < |rows| :: r[i] == if rows[i].id == id && Live(rows[i]) then rows[i].(invalidatedAt := now) else rows[i]
  {
    seq(|rows|, i requires 0 <= i < |rows| =>
      if rows[i].id == id && Live(rows[i]) then rows[i].(invalidatedAt := now) else rows[i])
  }

  /* ---- queries ---- */

  /** The valid-time interval [validFrom, validUntil) of the row contains t. */
  predicate Covers(row: Edge, t: string) {
    !Less(t, row.validFrom) && (row.validUntil == "" || Less(t, row.validUntil))
  }

  predicate Matches(row: Edge, q: EdgeQuery) {
    && row.vault == q.vault
    && (q.kind != "" ==> row.kind == q.kind)
    && (q.entityId != "" ==> row.source == q.entityId || row.target == q.entityId)
    && if q.asOf != "" then Covers(row, q.asOf) else Live(row)
  }

  function Select(rows: seq<Edge>, q: EdgeQuery): seq<Edge> {
    if rows == [] then []
    else
      var rest := Select(rows[..|rows| - 1], q);
      if Matches(rows[|rows| - 1], q) then rest + [rows[|rows| - 1]] else rest
  }

  /** Inserts a row behind those that are valid from as late or later. */
  function InsertLatestFirst(row: Edge, rows: seq<Edge>): seq<Edge> {
    if rows == [] then [row]
    else
      var last := rows[|rows| - 1];
      if Less(last.validFrom, row.validFrom) then InsertLatestFirst(row, rows[..|rows| - 1]) + [last] else rows + [row]
  }

  function LatestFirst(rows: seq<Edge>): seq<Edge> {
    if rows == [] then [] else InsertLatestFirst(rows[|rows| - 1], LatestFirst(rows[..|rows| - 1]))
  }

  function EffectiveLimit(limit: int): nat {
    if limit <= 0 || limit > 1000 then 100 else limit
  }

  function Take(rows: seq<Edge>, n: nat): seq<Edge> {
    if |rows| <= n then rows else rows[..n]
  }

  function Answer(rows: seq<Edge>, q: EdgeQuery): seq<Edge> {
    Take(LatestFirst(Select(rows, q)), EffectiveLimit(q.limit))
  }

  /* ---- what a query answers ---- */

  /** Selecting keeps each matching row as often as it is there, and no other. */
  lemma {:induction false} SelectAre(rows: seq<Edge>, q: EdgeQuery)
    ensures forall r :: multiset(Select(rows, q))[r] == if Matches(r, q) then multiset(rows)[r] else 0
  {
    hide Matches;
    if rows == [] {
    } else {
      SelectAre(rows[..|rows| - 1], q);
      assert rows == rows[..|rows| - 1] + [rows[|rows| - 1]];
    }
  }

  /** From the latest valid_from to the earliest. */
  ghost predicate Descending(rows: seq<Edge>) {
    forall i, j | 0 <= i < j < |rows| :: !Less(rows[i].validFrom, rows[j].validFrom)
  }

  lemma {:induction false} InsertDescends(row: Edge, rows: seq<Edge>)
    requires Descending(rows)
    ensures Descending(InsertLatestFirst(row, rows))
    ensures multiset(InsertLatestFirst(row, rows)) == multiset(rows) + multiset{row}
  {
    hide Less;
    if rows == [] {
    } else {
      var m := |rows| - 1;
      var last := rows[m];
      assert rows == rows[..m] + [last];
      if Less(last.validFrom, row.validFrom) {
        InsertDescends(row, rows[..m]);
        var front := InsertLatestFirst(row, rows[..m]);
        LessAsymmetric(last.validFrom, row.validFrom);
        forall i | 0 <= i < |front| ensures !Less(front[i].validFrom, last.validFrom) {
          assert front[i] in multiset(front);
          assert front[i] != row ==> front[i] in rows[..m];
        }
      } else {
        forall i | 0 <= i < |rows| ensures !Less(rows[i].validFrom, row.validFrom) {
          if i < m { NotLessTransitive(rows[i].validFrom, last.validFrom, row.validFrom); }
        }
      }
    }
  }

  /** Sorting keeps the rows and puts the latest first. */
  lemma {:induction false} LatestFirstSorts(rows: seq<Edge>)
    ensures Descending(LatestFirst(rows)) && multiset(LatestFirst(rows)) == multiset(rows)
  {
    hide Less, InsertLatestFirst;
    if rows == [] {
    } else {
      LatestFirstSorts(rows[..|rows| - 1]);
      InsertDescends(rows[|rows| - 1], LatestFirst(rows[..|rows| - 1]));
      assert rows == rows[..|rows| - 1] + [rows[|rows| - 1]];
    }
  }

  /** In the columns: q's vault, its type and entity when it names them, and valid at its instant or else not invalidated. */
  ghost predicate Wanted(r: Edge, q: EdgeQuery) {
    && r.vault == q.vault && q.kind in {"", r.kind} && q.entityId in {"", r.source, r.target}
    && (q.asOf == "" ==> r.invalidatedAt == "")
    && (q.asOf != "" ==> !Less(q.asOf, r.validFrom))
    && (q.asOf != "" && r.validUntil != "" ==> Less(q.asOf, r.validUntil))
  }

  /** At most 1000 rows, and 100 when the query asks for more or for none. */
  ghost function Most(q: EdgeQuery): nat {
    if 1 <= q.limit <= 1000 then q.limit else 100
  }

  /** out is the answer to q: wanted rows, latest first, and what the limit leaves out is no later than what it lets in. */
  ghost predicate Answers(out: seq<Edge>, rows: seq<Edge>, q: EdgeQuery) {
    && Descending(out) && |out| <= Most(q)
    && (forall r :: multiset(out)[r] <= if Wanted(r, q) then multiset(rows)[r] else 0)
    && (|out| < Most(q) ==> forall r | Wanted(r, q) :: multiset(out)[r] == multiset(rows)[r])
    && (forall r, i | Wanted(r, q) && multiset(out)[r] < multiset(rows)[r] && 0 <= i < |out| :: !Less(out[i].validFrom, r.validFrom))
  }

  lemma MatchesWanted(r: Edge, q: EdgeQuery)
    ensures Matches(r, q) <==> Wanted(r, q)
  {
    hide Less;
  }

  lemma CutCounts(all: seq<Edge>, n: nat)
    requires n <= |all|
    ensures forall r :: multiset(all)[r] == multiset(all[..n])[r] + multiset(all[n..])[r]
  {
    assert all == all[..n] + all[n..];
  }

  /** A row that the cut leaves out is no later than any that it lets in. */
  lemma LeftOutIsNoLater(all: seq<Edge>, n: nat, r: Edge, i: nat)
    requires Descending(all) && i < n <= |all| && multiset(all[..n])[r] < multiset(all)[r]
    ensures !Less(all[i].validFrom, r.validFrom)
  {
    CutCounts(all, n);
    assert r in multiset(all[n..]);
    var j :| 0 <= j < |all[n..]| && all[n..][j] == r;
    assert all[n + j] == r;
  }

  lemma CutAnswers(all: seq<Edge>, rows: seq<Edge>, q: EdgeQuery)
    requires Descending(all) && |all| > Most(q)
    requires forall r :: multiset(all)[r] == if Wanted(r, q) then multiset(rows)[r] else 0
    ensures Answers(all[..Most(q)], rows, q)
  {
    hide Wanted, Less, Most;
    var n := Most(q);
    var out := all[..n];
    forall r, i | Wanted(r, q) && multiset(out)[r] < multiset(rows)[r] && 0 <= i < |out| ensures !Less(out[i].validFrom, r.validFrom) {
      LeftOutIsNoLater(all, n, r, i);
    }
    CutCounts(all, n);
  }

  lemma AnswerAnswers(rows: seq<Edge>, q: EdgeQuery)
    ensures Answers(Answer(rows, q), rows, q)
  {
    hide Matches, Wanted, Less, Select, LatestFirst;
    var all := LatestFirst(Select(rows, q));
    SelectAre(rows, q);
    LatestFirstSorts(Select(rows, q));
    forall r ensures Matches(r, q) <==> Wanted(r, q) {
      MatchesWanted(r, q);
    }
    assert EffectiveLimit(q.limit) == Most(q);
    hide EffectiveLimit, Most;
    if |all| > Most(q) { CutAnswers(all, rows, q); }
  }

  /* ---- one assertion, column by column ---- */

  /** What becomes of a row when an edge is asserted: a live one with its vault, source and type is closed, no other changes. */
  ghost predicate RowAfter(before: Edge, after: Edge, e: Edge, supersede: bool, now: string) {
    if supersede && before.vault == e.vault && before.source == e.source && before.kind == e.kind && before.invalidatedAt == "" then
      && after == before.(validUntil := after.validUntil, invalidatedAt := now)
      && (before.validUntil == "" || Less(e.validFrom, before.validUntil) ==> after.validUntil == e.validFrom)
      && (before.validUntil != "" && !Less(e.validFrom, before.validUntil) ==> after.validUntil == before.validUntil)
    else after == before
  }

  /** The timestamp in UTC if it can be read, and as it is if not. */
  ghost predicate InUtc(stored: string, given: string, parse: string -> string) {
    stored == if parse(given) == "" then given else parse(given)
  }

  /** The table has one row more, with e's columns: valid from now unless e says from when, open unless e says until when. */
  ghost predicate EdgeAdded(rows: seq<Edge>, after: seq<Edge>, e: Edge, supersede: bool, now: string, parse: string -> string) {
    && |after| == |rows| + 1
    && (forall i | 0 <= i < |rows| :: RowAfter(rows[i], after[i], after[|rows|], supersede, now))
    && var row := after[|rows|];
      && row.id == e.id && row.vault == e.vault && row.source == e.source && row.target == e.target && row.kind == e.kind
      && row.fact == e.fact && row.createdAt == now && row.invalidatedAt == ""
      && (if e.validFrom == "" then row.validFrom == now else InUtc(row.validFrom, e.validFrom, parse))
      && (if e.validUntil == "" then row.validUntil == "" else InUtc(row.validUntil, e.validUntil, parse))
  }

  /** A superseding assertion closes the live rows of its vault, source and type, and changes no other row. */
  lemma AssertedColumns(rows: seq<Edge>, e: Edge, supersede: bool, now: string, parse: string -> string)
    ensures var after := Asserted(rows, Stored(e, now, parse), supersede, now);
      if e.id == "" || exists i :: 0 <= i < |rows| && rows[i].id == e.id then after == rows
      else EdgeAdded(rows, after, e, supersede, now, parse)
  {
    hide Less;
  }

  /* ---- one write and the instants it changes ---- */

  /** For every instant: asserting e with invalidation takes exactly the live rows of its key away, from e.validFrom on. */
  lemma SupersedingCloses(row: Edge, e: Edge, now: string, t: string)
    requires e.validFrom != ""
    ensures Covers(Superseded(row, e, now), t) <==> Covers(row, t) && !(SameKey(row, e) && Live(row) && !Less(t, e.validFrom))
  {
    var f, until := e.validFrom, row.validUntil;
    if SameKey(row, e) && Live(row) && until != "" {
      LessTotal(t, f);
      LessTotal(f, until);
      if Less(t, f) && Less(f, until) { LessTransitive(t, f, until); }
      if Less(t, until) && Less(until, f) { LessTransitive(t, until, f); }
    }
  }

  /** A row without the columns that later writes may change. */
  function Identity(row: Edge): Edge {
    row.(validUntil := "", invalidatedAt := "")
  }

  function Identities(rows: seq<Edge>): (r: seq<Edge>)
    ensures |r| == |rows| && forall i | 0 <= i < |rows| :: r[i] == Identity(rows[i])
  {
    seq(|rows|, i requires 0 <= i < |rows| => Identity(rows[i]))
  }

  /** Row by row the same but for the columns that writes change, with the same rows matching q. */
  ghost predicate SameTo(a: seq<Edge>, b: seq<Edge>, q: EdgeQuery) {
    |a| == |b| && forall i | 0 <= i < |a| :: Identity(a[i]) == Identity(b[i]) && (Matches(a[i], q) <==> Matches(b[i], q))
  }

  lemma {:induction false} SameSelection(a: seq<Edge>, b: seq<Edge>, q: EdgeQuery)
    requires SameTo(a, b, q)
    ensures Identities(Select(a, q)) == Identities(Select(b, q))
  {
    if a == [] {
    } else {
      var m := |a| - 1;
      SameSelection(a[..m], b[..m], q);
      assert Identity(a[m]) == Identity(b[m]);
    }
  }

  lemma {:induction false} SameInsertion(r1: Edge, s1: seq<Edge>, r2: Edge, s2: seq<Edge>)
    requires Identity(r1) == Identity(r2) && Identities(s1) == Identities(s2)
    ensures Identities(InsertLatestFirst(r1, s1)) == Identities(InsertLatestFirst(r2, s2))
  {
    if s1 == [] {
    } else {
      var m := |s1| - 1;
      assert Identities(s1)[m] == Identities(s2)[m] && s1[m].validFrom == s2[m].validFrom && r1.validFrom == r2.validFrom by {
        assert Identity(s1[m]).validFrom == Identity(s2[m]).validFrom && Identity(r1).validFrom == Identity(r2).validFrom;
      }
      assert Identities(s1[..m]) == Identities(s1)[..m] == Identities(s2)[..m] == Identities(s2[..m]);
      SameInsertion(r1, s1[..m], r2, s2[..m]);
    }
  }

  lemma {:induction false} SameOrder(s1: seq<Edge>, s2: seq<Edge>)
    requires Identities(s1) == Identities(s2)
    ensures Identities(LatestFirst(s1)) == Identities(LatestFirst(s2))
  {
    assert |s1| == |Identities(s1)| == |s2|;
    if s1 == [] {
    } else {
      var m := |s1| - 1;
      assert Identities(s1[..m]) == Identities(s1)[..m] == Identities(s2)[..m] == Identities(s2[..m]);
      SameOrder(s1[..m], s2[..m]);
      assert Identities(s1)[m] == Identities(s2)[m];
      SameInsertion(s1[m], LatestFirst(s1[..m]), s2[m], LatestFirst(s2[..m]));
    }
  }

  lemma SameAnswer(a: seq<Edge>, b: seq<Edge>, q: EdgeQuery)
    requires SameTo(a, b, q)
    ensures Identities(Answer(a, q)) == Identities(Answer(b, q))
  {
    SameSelection(a, b, q);
    SameOrder(Select(a, q), Select(b, q));
    var x, y, n := LatestFirst(Select(a, q)), LatestFirst(Select(b, q)), EffectiveLimit(q.limit);
    assert |x| == |Identities(x)| == |y|;
    if |x| > n { assert Identities(x[..n]) == Identities(x)[..n] == Identities(y)[..n] == Identities(y[..n]); }
  }

  /* ---- the past is frozen ---- */

  datatype Write = Assert(e: Edge, invalidatePrior: bool, now: string) | Invalidate(id: string, now: string)

  /** The rows after one write; the edge of an assertion is in stored form. */
  function After(rows: seq<Edge>, w: Write): seq<Edge> {
    match w
    case Assert(e, prior, now) => Asserted(rows, e, prior, now)
    case Invalidate(id, now) => Invalidated(rows, id, now)
  }

  function AfterAll(rows: seq<Edge>, ws: seq<Write>): seq<Edge> {
    if ws == [] then rows else After(AfterAll(rows, ws[..|ws| - 1]), ws[|ws| - 1])
  }

  /** The write asserts nothing that is valid at or before t. */
  predicate LaterThan(w: Write, t: string) {
    w.Assert? ==> Less(t, w.e.validFrom)
  }

  lemma OneWriteKeepsPast(rows: seq<Edge>, w: Write, q: EdgeQuery)
    requires q.asOf != "" && LaterThan(w, q.asOf)
    ensures Identities(Answer(After(rows, w), q)) == Identities(Answer(rows, q))
  {
    var after := After(rows, w);
    match w
    case Invalidate(id, now) => SameAnswer(after, rows, q);
    case Assert(e, prior, now) =>
      if |after| > |rows| {
        var old_ := after[..|rows|];
        forall i | 0 <= i < |rows| ensures Identity(old_[i]) == Identity(rows[i]) && (Matches(old_[i], q) <==> Matches(rows[i], q)) {
          SupersedingCloses(rows[i], e, now, q.asOf);
        }
        SameAnswer(old_, rows, q);
        assert Select(after, q) == Select(old_, q) by { assert !Matches(after[|rows|], q); }
      }
  }

  /**
   * No run of later writes rewrites an earlier valid-time answer: the edges answered as of t, their order and the cut at
   * the limit stay, as long as every assertion is valid from after t.
   */
  lemma {:induction false} PastIsFrozen(rows: seq<Edge>, ws: seq<Write>, q: EdgeQuery)
    requires q.asOf != "" && forall i | 0 <= i < |ws| :: LaterThan(ws[i], q.asOf)
    ensures Identities(Answer(AfterAll(rows, ws), q)) == Identities(Answer(rows, q))
  {
    if ws == [] {
    } else {
      PastIsFrozen(rows, ws[..|ws| - 1], q);
      OneWriteKeepsPast(AfterAll(rows, ws[..|ws| - 1]), ws[|ws| - 1], q);
    }
  }

  /* ---- single-valued relations ---- */

  function KeyRows(rows: seq<Edge>, e: Edge): seq<Edge> {
    if rows == [] then []
    else
      var rest := KeyRows(rows[..|rows| - 1], e);
      if SameKey(rows[|rows| - 1], e) then rest + [rows[|rows| - 1]] else rest
  }

  /** Each row but the last is superseded and ends where the next begins; the last is live and open. */
  ghost predicate Chain(ks: seq<Edge>) {
    && (forall i | 0 <= i < |ks| :: ks[i].validFrom != "")
    && (forall i | 0 <= i < |ks| - 1 :: !Live(ks[i]) && ks[i].validUntil == ks[i + 1].validFrom
                                        && !Less(ks[i + 1].validFrom, ks[i].validFrom))
    && (ks != [] ==> Live(ks[|ks| - 1]) && ks[|ks| - 1].validUntil == "")
  }

  ghost predicate ValidFromBy(rows: seq<Edge>, bound: string) {
    forall i | 0 <= i < |rows| :: !Less(bound, rows[i].validFrom)
  }

  lemma {:induction false} KeyRowsSuperseded(rows: seq<Edge>, e: Edge, now: string, key: Edge)
    ensures KeyRows(SupersededAll(rows, e, now), key) == SupersededAll(KeyRows(rows, key), e, now)
  {
    if rows == [] {
    } else {
      var m := |rows| - 1;
      KeyRowsSuperseded(rows[..m], e, now, key);
      assert SupersededAll(rows, e, now)[..m] == SupersededAll(rows[..m], e, now);
      assert SameKey(SupersededAll(rows, e, now)[m], key) <==> SameKey(rows[m], key);
    }
  }

  lemma {:induction false} KeyRowsAreKeyed(rows: seq<Edge>, key: Edge)
    ensures forall i | 0 <= i < |KeyRows(rows, key)| :: SameKey(KeyRows(rows, key)[i], key) && KeyRows(rows, key)[i] in rows
  {
    if rows == [] {
    } else {
      KeyRowsAreKeyed(rows[..|rows| - 1], key);
    }
  }

  lemma ChainExtends(ks: seq<Edge>, e: Edge, now: string)
    requires Chain(ks) && ValidFromBy(ks, e.validFrom) && now != ""
    requires e.validFrom != "" && e.validUntil == "" && Live(e) && forall i | 0 <= i < |ks| :: SameKey(ks[i], e)
    ensures Chain(SupersededAll(ks, e, now) + [e])
  {
  }

  lemma KeyRowsAfterAssert(rows: seq<Edge>, e: Edge, now: string, key: Edge)
    requires e.id != "" && !HasId(rows, e.id)
    ensures KeyRows(Asserted(rows, e, true, now), key)
      == if SameKey(e, key) then SupersededAll(KeyRows(rows, key), e, now) + [e] else KeyRows(rows, key)
  {
    var closed := SupersededAll(rows, e, now);
    assert (closed + [e])[..|closed|] == closed;
    KeyRowsSuperseded(rows, e, now, key);
    KeyRowsAreKeyed(rows, key);
    var ks := KeyRows(rows, key);
    if !SameKey(e, key) {
      forall i | 0 <= i < |ks| ensures Superseded(ks[i], e, now) == ks[i] {
        assert SameKey(ks[i], key);
      }
      assert SupersededAll(ks, e, now) == ks;
    }
  }

  /** A superseding assertion that is open and not backdated extends the chain of its key and leaves the others. */
  lemma AssertExtendsChain(rows: seq<Edge>, e: Edge, now: string, key: Edge)
    requires Chain(KeyRows(rows, key)) && ValidFromBy(rows, e.validFrom)
    requires now != "" && e.validFrom != "" && e.validUntil == "" && Live(e)
    ensures Chain(KeyRows(Asserted(rows, e, true, now), key))
    ensures ValidFromBy(Asserted(rows, e, true, now), e.validFrom)
  {
    hide Chain;
    LessIrreflexive(e.validFrom);
    if e.id != "" && !HasId(rows, e.id) {
      KeyRowsAfterAssert(rows, e, now, key);
      KeyRowsAreKeyed(rows, key);
      if SameKey(e, key) { ChainExtends(KeyRows(rows, key), e, now); }
    }
  }

  /** Superseding assertions, open, with valid_from never going back. */
  ghost predicate ForwardRun(ws: seq<Write>) {
    && (forall i | 0 <= i < |ws| :: ws[i].Assert? && ws[i].invalidatePrior && ws[i].now != ""
          && ws[i].e.validFrom != "" && ws[i].e.validUntil == "" && Live(ws[i].e))
    && (forall i, j | 0 <= i < j < |ws| :: !Less(ws[j].e.validFrom, ws[i].e.validFrom))
  }

  lemma {:induction false} ForwardRunKeepsChain(rows: seq<Edge>, ws: seq<Write>, key: Edge)
    requires ForwardRun(ws) && Chain(KeyRows(rows, key)) && (ws != [] ==> ValidFromBy(rows, ws[0].e.validFrom))
    ensures Chain(KeyRows(AfterAll(rows, ws), key))
    ensures ws != [] ==> ValidFromBy(AfterAll(rows, ws), ws[|ws| - 1].e.validFrom)
  {
    hide Chain, KeyRows, ValidFromBy, Asserted;
    if ws == [] {
    } else {
      var m := |ws| - 1;
      ForwardRunKeepsChain(rows, ws[..m], key);
      var before := AfterAll(rows, ws[..m]);
      if m > 0 { BoundMoves(before, ws[m - 1].e.validFrom, ws[m].e.validFrom); }
      AssertExtendsChain(before, ws[m].e, ws[m].now, key);
    }
  }

  lemma BoundMoves(rows: seq<Edge>, a: string, b: string)
    requires ValidFromBy(rows, a) && !Less(b, a)
    ensures ValidFromBy(rows, b)
  {
    forall i | 0 <= i < |rows| ensures !Less(b, rows[i].validFrom) {
      NotLessTransitive(b, a, rows[i].validFrom);
    }
  }

  lemma NotLessTransitive(c: string, b: string, a: string)
    requires !Less(c, b) && !Less(b, a)
    ensures !Less(c, a)
  {
    LessTotal(b, c);
    if Less(c, a) && Less(b, c) { LessTransitive(b, c, a); }
  }

  /** In a chain every instant from the first valid_from on is covered by exactly one row. */
  lemma {:induction false} ChainCoversOnce(ks: seq<Edge>, t: string) returns (i: nat)
    requires Chain(ks) && ks != [] && !Less(t, ks[0].validFrom)
    ensures i < |ks| && forall j | 0 <= j < |ks| :: Covers(ks[j], t) <==> j == i
  {
    i := 0;
    while i + 1 < |ks| && !Less(t, ks[i + 1].validFrom)
      invariant 0 <= i < |ks| && !Less(t, ks[i].validFrom)
      invariant forall j | 0 <= j < i :: !Covers(ks[j], t)
    {
      i := i + 1;
    }
    forall j | i < j < |ks| ensures !Covers(ks[j], t) {
      BeforeLaterRows(ks, i + 1, j, t);
    }
  }

  ghost predicate Rising(ks: seq<Edge>) {
    forall i | 0 <= i < |ks| - 1 :: !Less(ks[i + 1].validFrom, ks[i].validFrom)
  }

  lemma {:induction false} BeforeLaterRows(ks: seq<Edge>, i: nat, j: nat, t: string)
    requires Rising(ks) && i <= j < |ks| && Less(t, ks[i].validFrom)
    ensures Less(t, ks[j].validFrom)
  {
    if i < j {
      BeforeLaterRows(ks, i, j - 1, t);
      LessTotal(ks[j - 1].validFrom, ks[j].validFrom);
      if Less(ks[j - 1].validFrom, ks[j].validFrom) { LessTransitive(t, ks[j - 1].validFrom, ks[j].validFrom); }
    }
  }

  /* ---- single-valued key by key, with explicit ends ---- */

  /** Each row but the last is superseded and over when the next begins; the last is live. */
  ghost predicate Staggered(ks: seq<Edge>) {
    && Rising(ks) && (forall i | 0 <= i < |ks| :: ks[i].validFrom != "" && (Live(ks[i]) <==> i == |ks| - 1))
    && (forall i | 0 <= i < |ks| - 1 :: ks[i].validUntil != "" && !Less(ks[i + 1].validFrom, ks[i].validUntil))
  }

  lemma StaggerExtends(ks: seq<Edge>, e: Edge, now: string)
    requires Staggered(ks) && ValidFromBy(ks, e.validFrom) && now != ""
    requires e.validFrom != "" && Live(e) && forall i | 0 <= i < |ks| :: SameKey(ks[i], e)
    ensures Staggered(SupersededAll(ks, e, now) + [e])
  {
    LessIrreflexive(e.validFrom);
  }

  lemma OtherKeyAsserted(rows: seq<Edge>, e: Edge, prior: bool, now: string, key: Edge)
    requires !SameKey(e, key)
    ensures KeyRows(Asserted(rows, e, prior, now), key) == KeyRows(rows, key)
  {
    if e.id != "" && !HasId(rows, e.id) {
      if prior { KeyRowsAfterAssert(rows, e, now, key); } else { assert (rows + [e])[..|rows|] == rows; }
    }
  }

  /** Only assertions; those of the key supersede and never go back. Other keys may do as they like. */
  ghost predicate KeyForwardRun(ws: seq<Write>, key: Edge) {
    && (forall i | 0 <= i < |ws| :: ws[i].Assert?)
    && (forall i | 0 <= i < |ws| && SameKey(ws[i].e, key) ::
          ws[i].invalidatePrior && ws[i].now != "" && ws[i].e.validFrom != "" && Live(ws[i].e))
    && (forall i, j | 0 <= i < j < |ws| && SameKey(ws[i].e, key) && SameKey(ws[j].e, key) ::
          !Less(ws[j].e.validFrom, ws[i].e.validFrom))
  }

  lemma {:induction false} KeyRowsBounded(ws: seq<Write>, key: Edge, bound: string)
    requires forall i | 0 <= i < |ws| :: ws[i].Assert?
    requires forall i | 0 <= i < |ws| && SameKey(ws[i].e, key) :: ws[i].invalidatePrior && !Less(bound, ws[i].e.validFrom)
    ensures ValidFromBy(KeyRows(AfterAll([], ws), key), bound)
  {
    hide Less, Asserted, KeyRows;
    if ws == [] {
      assert KeyRows([], key) == [] by { NoKeyRows(key); }
    } else {
      var m := |ws| - 1;
      KeyRowsBounded(ws[..m], key, bound);
      var before := AfterAll([], ws[..m]);
      KeyRowsAfterWrite(before, ws[m], key);
    }
  }

  lemma NoKeyRows(key: Edge)
    ensures KeyRows([], key) == [] && Staggered([]) && Chain([])
  {
  }

  lemma KeyRowsAfterWrite(rows: seq<Edge>, w: Write, key: Edge)
    requires w.Assert? && (SameKey(w.e, key) ==> w.invalidatePrior)
    ensures var ks := KeyRows(rows, key);
      KeyRows(After(rows, w), key) ==
        if SameKey(w.e, key) && w.e.id != "" && !HasId(rows, w.e.id) then SupersededAll(ks, w.e, w.now) + [w.e] else ks
  {
    if !SameKey(w.e, key) {
      OtherKeyAsserted(rows, w.e, w.invalidatePrior, w.now, key);
    } else if w.e.id != "" && !HasId(rows, w.e.id) {
      KeyRowsAfterAssert(rows, w.e, w.now, key);
    }
  }

  /** No assertion of the key has an explicit end. */
  ghost predicate KeyOpen(ws: seq<Write>, key: Edge) {
    forall i | 0 <= i < |ws| && ws[i].Assert? && SameKey(ws[i].e, key) :: ws[i].e.validUntil == ""
  }

  /** One forward assertion of the key, or any assertion of another. */
  lemma KeyStep(rows: seq<Edge>, w: Write, key: Edge)
    requires w.Assert? && Staggered(KeyRows(rows, key))
    requires SameKey(w.e, key) ==> w.invalidatePrior && w.now != "" && w.e.validFrom != "" && Live(w.e)
    requires SameKey(w.e, key) ==> ValidFromBy(KeyRows(rows, key), w.e.validFrom)
    ensures Staggered(KeyRows(After(rows, w), key))
    ensures Chain(KeyRows(rows, key)) && (SameKey(w.e, key) ==> w.e.validUntil == "") ==> Chain(KeyRows(After(rows, w), key))
  {
    hide Staggered, Chain, Asserted, KeyRows, ValidFromBy;
    KeyRowsAfterWrite(rows, w, key);
    if SameKey(w.e, key) {
      KeyRowsAreKeyed(rows, key);
      StaggerExtends(KeyRows(rows, key), w.e, w.now);
      if Chain(KeyRows(rows, key)) && w.e.validUntil == "" { ChainExtends(KeyRows(rows, key), w.e, w.now); }
    }
  }

  lemma {:induction false} KeyRunKeeps(ws: seq<Write>, key: Edge)
    requires KeyForwardRun(ws, key)
    ensures Staggered(KeyRows(AfterAll([], ws), key))
    ensures KeyOpen(ws, key) ==> Chain(KeyRows(AfterAll([], ws), key))
  {
    hide Staggered, Chain, After, KeyRows, ValidFromBy;
    if ws == [] {
      NoKeyRows(key);
    } else {
      var m := |ws| - 1;
      KeyRunKeeps(ws[..m], key);
      if SameKey(ws[m].e, key) { KeyRowsBounded(ws[..m], key, ws[m].e.validFrom); }
      KeyStep(AfterAll([], ws[..m]), ws[m], key);
    }
  }

  lemma StaggeredCoversOnce(ks: seq<Edge>, t: string, i: nat, j: nat)
    requires Staggered(ks) && i <= j < |ks| && Covers(ks[i], t) && Covers(ks[j], t)
    ensures i == j
  {
    if i < j {
      var next := ks[i + 1].validFrom;
      LessTotal(ks[i].validUntil, next);
      if Less(ks[i].validUntil, next) { LessTransitive(t, ks[i].validUntil, next); }
      BeforeLaterRows(ks, i + 1, j, t);
    }
  }

  /**
   * Over any run of assertions in which those of a key supersede and never go back, explicit ends allowed and whatever
   * happens to other keys: the key has at most one edge at every instant, and exactly one live row.
   */
  lemma ForwardRunNeverOverlaps(ws: seq<Write>, key: Edge, t: string)
    requires KeyForwardRun(ws, key)
    ensures var ks := KeyRows(AfterAll([], ws), key);
      && (forall i, j | 0 <= i < |ks| && 0 <= j < |ks| && Covers(ks[i], t) && Covers(ks[j], t) :: i == j)
      && (forall i | 0 <= i < |ks| :: Live(ks[i]) <==> i == |ks| - 1)
  {
    hide KeyRows, AfterAll, KeyForwardRun, Covers;
    var ks := KeyRows(AfterAll([], ws), key);
    KeyRunKeeps(ws, key);
    forall i, j | 0 <= i <= j < |ks| && Covers(ks[i], t) && Covers(ks[j], t) ensures i == j {
      StaggeredCoversOnce(ks, t, i, j);
    }
  }

  /**
   * Single-valued: without explicit ends the key has exactly one edge at every instant from its first valid_from on, and
   * exactly one live row.
   */
  lemma ForwardRunIsSingleValued(ws: seq<Write>, key: Edge, t: string) returns (i: nat)
    requires KeyForwardRun(ws, key) && KeyOpen(ws, key)
    requires KeyRows(AfterAll([], ws), key) != [] && !Less(t, KeyRows(AfterAll([], ws), key)[0].validFrom)
    ensures var ks := KeyRows(AfterAll([], ws), key);
      && i < |ks| && (forall j | 0 <= j < |ks| :: Covers(ks[j], t) <==> j == i)
      && (forall j | 0 <= j < |ks| :: Live(ks[j]) <==> j == |ks| - 1)
  {
    KeyRunKeeps(ws, key);
    i := ChainCoversOnce(KeyRows(AfterAll([], ws), key), t);
  }

  /* ---- when the claim of one edge per instant fails ---- */

  /** Row i is the only one of e's key that covers t. */
  ghost predicate OnlyCover(rows: seq<Edge>, e: Edge, t: string, i: int) {
    0 <= i < |rows| && SameKey(rows[i], e) && forall j | 0 <= j < |rows| && SameKey(rows[j], e) :: Covers(rows[j], t) <==> j == i
  }

  /** Row i had been invalidated but still covers t. */
  ghost predicate DeadCover(rows: seq<Edge>, e: Edge, t: string, i: int) {
    0 <= i < |rows| && SameKey(rows[i], e) && !Live(rows[i]) && Covers(rows[i], t)
  }

  /** In any table, from e.validFrom on, what covers an instant after e is asserted: e while it is valid, and the dead rows that did. */
  lemma CoversAfterAssert(rows: seq<Edge>, e: Edge, now: string, t: string, i: int)
    requires e.validFrom != "" && !Less(t, e.validFrom) && e.id != "" && !HasId(rows, e.id)
    requires var after := Asserted(rows, e, true, now); 0 <= i < |after| && SameKey(after[i], e)
    ensures Covers(Asserted(rows, e, true, now)[i], t) <==> (i == |rows| && Covers(e, t)) || DeadCover(rows, e, t, i)
  {
    if i < |rows| { SupersedingCloses(rows[i], e, now, t); }
  }

  /**
   * At an instant from e.validFrom on, the accepted superseding assertion is the one row of its key that covers it if and
   * only if it is itself valid then and no row of the key that had been invalidated before still covers it.
   */
  lemma OnlyNewEdgeCovers(rows: seq<Edge>, e: Edge, now: string, t: string)
    requires e.validFrom != "" && !Less(t, e.validFrom) && e.id != "" && !HasId(rows, e.id)
    ensures OnlyCover(Asserted(rows, e, true, now), e, t, |rows|)
      <==> Covers(e, t) && forall i | 0 <= i < |rows| :: !DeadCover(rows, e, t, i)
  {
    hide Covers;
    var after := Asserted(rows, e, true, now);
    forall i | 0 <= i < |after| && SameKey(after[i], e)
      ensures Covers(after[i], t) <==> (i == |rows| && Covers(e, t)) || DeadCover(rows, e, t, i) {
      CoversAfterAssert(rows, e, now, t, i);
    }
    assert after[|rows|] == e;
    assert forall i | 0 <= i < |rows| :: SameKey(after[i], e) <==> SameKey(rows[i], e);
  }

  ghost predicate OnlyDeadCover(rows: seq<Edge>, e: Edge, t: string, i: int) {
    DeadCover(rows, e, t, i) && forall j | DeadCover(rows, e, t, j) :: j == i
  }

  /**
   * Exactly one row of the key covers the instant if and only if the new edge is valid then and no dead row covers it, or it
   * is not and exactly one dead row does.
   */
  lemma ExactlyOneCoversIff(rows: seq<Edge>, e: Edge, now: string, t: string)
    requires e.validFrom != "" && !Less(t, e.validFrom) && e.id != "" && !HasId(rows, e.id)
    ensures (exists i :: OnlyCover(Asserted(rows, e, true, now), e, t, i))
      <==> if Covers(e, t) then forall i | 0 <= i < |rows| :: !DeadCover(rows, e, t, i) else exists i :: OnlyDeadCover(rows, e, t, i)
  {
    hide Covers;
    var after := Asserted(rows, e, true, now);
    forall i | 0 <= i < |after| && SameKey(after[i], e)
      ensures Covers(after[i], t) <==> (i == |rows| && Covers(e, t)) || DeadCover(rows, e, t, i) {
      CoversAfterAssert(rows, e, now, t, i);
    }
    assert after[|rows|] == e;
    assert forall i | 0 <= i < |rows| :: SameKey(after[i], e) <==> SameKey(rows[i], e);
    OnlyNewEdgeCovers(rows, e, now, t);
    forall i ensures !Covers(e, t) ==> (OnlyCover(after, e, t, i) <==> OnlyDeadCover(rows, e, t, i)) {}
  }

  /** An edge asserted with an explicit end leaves no edge at all after it. */
  lemma ExpiredEdgeLeavesNone()
    ensures var e := Edge("e", "", "s", "x", "k", "", "3", "4", "3", "");
      var after := Asserted([], e, true, "3");
      |after| == 1 && !Less("5", e.validFrom) && !Covers(after[0], "5")
  {
    var e := Edge("e", "", "s", "x", "k", "", "3", "4", "3", "");
    assert Asserted([], e, true, "3") == [e];
  }

  /** A new target supersedes like any other: the key of a relation is its vault, source and type. */
  lemma NewTargetSupersedes(rows: seq<Edge>, e: Edge, now: string, i: nat, t: string)
    requires e.validFrom != "" && now != "" && e.id != "" && !HasId(rows, e.id)
    requires i < |rows| && SameKey(rows[i], e) && rows[i].target != e.target && Live(rows[i])
    ensures var after := Asserted(rows, e, true, now);
      !Live(after[i]) && after[i].target == rows[i].target && (!Less(t, e.validFrom) ==> !Covers(after[i], t))
  {
    SupersedingCloses(rows[i], e, now, t);
  }

  /** Invalidating an edge by hand leaves its interval open, so a later superseding assertion overlaps it. */
  lemma HandInvalidationOverlaps()
    ensures var a := Edge("a", "", "s", "x", "k", "", "1", "", "1", "");
      var b := Edge("b", "", "s", "y", "k", "", "3", "", "3", "");
      var rows := AfterAll([], [Assert(a, true, "1"), Invalidate("a", "2"), Assert(b, true, "3")]);
      |rows| == 2 && SameKey(rows[0], rows[1]) && Covers(rows[0], "4") && Covers(rows[1], "4")
  {
    var a := Edge("a", "", "s", "x", "k", "", "1", "", "1", "");
    var b := Edge("b", "", "s", "y", "k", "", "3", "", "3", "");
    var w0, w1, w2 := Assert(a, true, "1"), Invalidate("a", "2"), Assert(b, true, "3");
    var r0 := AfterAll([], []);
    assert [w0, w1, w2][..2] == [w0, w1] && [w0, w1][..1] == [w0] && [w0][..0] == [];
    assert AfterAll([], [w0]) == [a];
    var a' := a.(invalidatedAt := "2");
    assert AfterAll([], [w0, w1]) == Invalidated([a], "a", "2") == [a'];
    assert AfterAll([], [w0, w1, w2]) == Asserted([a'], b, true, "3") == [a', b];
  }
}
