/** What ingestion leaves in the two tables, column by column. */
module IngestedTables {
  import opened Basics
  import opened Lex
  import opened GraphStore
  import opened Words
  import opened EntityNames
  import opened Entities
  import opened Ingestion

  /* ---- names, in the columns of the table ---- */

  /** Entity i is the last of that name. */
  ghost predicate LastNamed(es: seq<ExtractedEntity>, i: int, lowered: string) {
    && 0 <= i < |es| && TrimSpace(es[i].name) != "" && Lower(TrimSpace(es[i].name)) == lowered
    && forall k | i < k < |es| :: Lower(TrimSpace(es[k].name)) != lowered
  }

  /** The id is that of an entity of the vault with this name and kind. */
  ghost predicate Holds(rows: seq<Entity>, vault: string, lowered: string, kind: string, id: string) {
    exists j :: 0 <= j < |rows| && rows[j].id == id && rows[j].vault == vault && Lower(rows[j].name) == lowered && rows[j].kind == kind
  }

  /** Fresh ids are not empty, not repeated, and not in the table. */
  ghost predicate Fresh(freshId: nat -> string, rows: seq<Entity>) {
    && (forall i :: freshId(i) != "")
    && (forall i, j :: freshId(i) == freshId(j) ==> i == j)
    && (forall i, j | 0 <= j < |rows| :: rows[j].id != freshId(i))
  }

  /** Every name that is not blank has an id, that of an entity of the vault with that name and the last kind given with it. */
  ghost predicate Named(after: seq<Entity>, idByName: map<string, string>, vault: string, es: seq<ExtractedEntity>) {
    && (forall n | n in idByName :: exists i :: LastNamed(es, i, n))
    && (forall i, n | 0 <= i < |es| && LastNamed(es, i, n) :: n in idByName && Holds(after, vault, n, NormalizeKind(es[i].kind), idByName[n]))
  }

  /** The table has gained rows with fresh ids behind those it had. */
  ghost predicate Grown(rows: seq<Entity>, after: seq<Entity>, freshId: nat -> string, n: nat) {
    && rows <= after
    && forall j | |rows| <= j < |after| :: exists k :: 0 <= k < n && after[j].id == freshId(k)
  }

  function NotBlank(es: seq<ExtractedEntity>): nat {
    if es == [] then 0 else NotBlank(es[..|es| - 1]) + if TrimSpace(es[|es| - 1].name) == "" then 0 else 1
  }

  /** An upsert without a summary and with a fresh id keeps every row and gives the id of a row with name and kind. */
  lemma UpsertFinds(rows: seq<Entity>, e: Entity, now: string)
    requires e.id != "" && e.summary == "" && forall j | 0 <= j < |rows| :: rows[j].id != e.id
    ensures var (after, r) := Upserted(rows, e, now);
      && r.Ok? && rows <= after && |after| <= |rows| + 1 && Holds(after, e.vault, Lower(e.name), e.kind, r.value)
      && (|after| > |rows| ==> after[|rows|].id == e.id)
  {
    var (after, r) := Upserted(rows, e, now);
    var i := FindEntity(rows, e);
    assert after[i].id == r.value;
  }

  /** Whatever the names, each gets an entity: the last kind given with a name decides which. */
  lemma {:induction false} ResolveFinds(rows: seq<Entity>, vault: string, es: seq<ExtractedEntity>, freshId: nat -> string, clock: nat -> string)
    requires Fresh(freshId, rows)
    ensures var names := Resolve(rows, vault, es, freshId, clock);
      Named(names.rows, names.idByName, vault, es) && Grown(rows, names.rows, freshId, |es|) && names.count == NotBlank(es)
  {
    hide Upserted, TrimSpace, Lower, NormalizeKind, Named, Grown;
    if es == [] {
      NothingNamed(rows, vault, freshId);
    } else {
      var i := |es| - 1;
      ResolveFinds(rows, vault, es[..i], freshId, clock);
      var before := Resolve(rows, vault, es[..i], freshId, clock);
      var name := TrimSpace(es[i].name);
      if name == "" {
        NamedSkips(before.rows, before.idByName, vault, es);
        GrownNext(rows, before.rows, before.rows, freshId, i);
      } else {
        var e := Entity(freshId(i), vault, name, NormalizeKind(es[i].kind), "", "", "");
        var (after, r) := Upserted(before.rows, e, clock(i));
        FreshStays(rows, before.rows, freshId, i);
        UpsertFinds(before.rows, e, clock(i));
        GrownNext(rows, before.rows, after, freshId, i);
        NamedNext(before.rows, after, before.idByName, vault, es, r.value);
      }
    }
  }

  lemma NothingNamed(rows: seq<Entity>, vault: string, freshId: nat -> string)
    ensures Named(rows, map[], vault, []) && Grown(rows, rows, freshId, 0)
  {
  }

  lemma FreshStays(rows: seq<Entity>, after: seq<Entity>, freshId: nat -> string, n: nat)
    requires Fresh(freshId, rows) && Grown(rows, after, freshId, n)
    ensures forall j | 0 <= j < |after| :: after[j].id != freshId(n)
  {
    forall j | 0 <= j < |after| ensures after[j].id != freshId(n) {
      if j < |rows| { assert after[j] == rows[j]; }
    }
  }

  lemma GrownNext(rows: seq<Entity>, before: seq<Entity>, after: seq<Entity>, freshId: nat -> string, n: nat)
    requires Grown(rows, before, freshId, n) && before <= after && |after| <= |before| + 1
    requires |after| > |before| ==> after[|before|].id == freshId(n)
    ensures Grown(rows, after, freshId, n + 1)
  {
    assert rows <= after by { assert forall j | 0 <= j < |rows| :: after[j] == before[j]; }
    forall j | |rows| <= j < |after| ensures exists k :: 0 <= k < n + 1 && after[j].id == freshId(k) {
      if j < |before| {
        assert after[j] == before[j];
        var k :| 0 <= k < n && before[j].id == freshId(k);
        assert after[j].id == freshId(k);
      } else {
        assert after[j].id == freshId(n);
      }
    }
  }

  /** The last of a name among the first entities is the last among all when the next one has another name. */
  lemma LastNamedNext(es: seq<ExtractedEntity>, i: int, lowered: string)
    requires es != []
    ensures var m := |es| - 1; var last := Lower(TrimSpace(es[m].name));
      LastNamed(es, i, lowered) <==>
        if i == m then TrimSpace(es[m].name) != "" && last == lowered else last != lowered && LastNamed(es[..m], i, lowered)
  {
    hide TrimSpace, Lower;
  }

  lemma NamedSkips(rows: seq<Entity>, idByName: map<string, string>, vault: string, es: seq<ExtractedEntity>)
    requires es != [] && TrimSpace(es[|es| - 1].name) == "" && Named(rows, idByName, vault, es[..|es| - 1])
    ensures Named(rows, idByName, vault, es)
  {
    hide TrimSpace, NormalizeKind, LastNamed, Holds;
    var m := |es| - 1;
    assert Lower("") == "";
    hide Lower;
    forall i, n ensures LastNamed(es, i, n) <==> LastNamed(es[..m], i, n) {
      LastNamedNext(es, i, n);
      if LastNamed(es[..m], i, n) {
        NameNotBlank(es[..m], i, n);
        LastNamedIndex(es[..m], i, n);
      }
    }
    forall n | n in idByName ensures exists i :: LastNamed(es, i, n) {
      var i :| LastNamed(es[..m], i, n);
      assert LastNamed(es, i, n);
    }
    forall i, n | 0 <= i < |es| && LastNamed(es, i, n) ensures n in idByName && Holds(rows, vault, n, NormalizeKind(es[i].kind), idByName[n]) {
      assert LastNamed(es[..m], i, n);
      LastNamedIndex(es[..m], i, n);
    }
  }

  lemma NameNotBlank(es: seq<ExtractedEntity>, i: int, lowered: string)
    requires LastNamed(es, i, lowered)
    ensures lowered != ""
  {
    hide TrimSpace;
    assert |Lower(TrimSpace(es[i].name))| == |TrimSpace(es[i].name)|;
  }

  lemma LastNamedIndex(es: seq<ExtractedEntity>, i: int, lowered: string)
    requires LastNamed(es, i, lowered)
    ensures 0 <= i < |es|
  {
  }

  lemma NamedNext(rows: seq<Entity>, after: seq<Entity>, idByName: map<string, string>, vault: string, es: seq<ExtractedEntity>, id: string)
    requires es != [] && TrimSpace(es[|es| - 1].name) != "" && Named(rows, idByName, vault, es[..|es| - 1]) && rows <= after
    requires Holds(after, vault, Lower(TrimSpace(es[|es| - 1].name)), NormalizeKind(es[|es| - 1].kind), id)
    ensures Named(after, idByName[Lower(TrimSpace(es[|es| - 1].name)) := id], vault, es)
  {
    hide TrimSpace, Lower, NormalizeKind, LastNamed, Holds;
    var m := |es| - 1;
    var last := Lower(TrimSpace(es[m].name));
    var ids := idByName[last := id];
    forall n | n in ids ensures exists i :: LastNamed(es, i, n) {
      if n == last {
        LastNamedNext(es, m, n);
      } else {
        var i :| LastNamed(es[..m], i, n);
        LastNamedIndex(es[..m], i, n);
        LastNamedNext(es, i, n);
      }
    }
    forall i, n | 0 <= i < |es| && LastNamed(es, i, n) ensures n in ids && Holds(after, vault, n, NormalizeKind(es[i].kind), ids[n]) {
      LastNamedNext(es, i, n);
      if i != m {
        LastNamedIndex(es[..m], i, n);
        HoldsOn(rows, after, vault, n, NormalizeKind(es[i].kind), ids[n]);
      }
    }
  }

  lemma HoldsOn(rows: seq<Entity>, after: seq<Entity>, vault: string, lowered: string, kind: string, id: string)
    requires rows <= after && Holds(rows, vault, lowered, kind, id)
    ensures Holds(after, vault, lowered, kind, id)
  {
    hide Lower;
    var j :| 0 <= j < |rows| && rows[j].id == id && rows[j].vault == vault && Lower(rows[j].name) == lowered && rows[j].kind == kind;
    assert after[j] == rows[j];
  }

  /* ---- relations, in the columns of the table ---- */

  /** Both names are known and a relation type is left. */
  ghost predicate Asks(idByName: map<string, string>, r: ExtractedRelation) {
    Lower(TrimSpace(r.source)) in idByName && Lower(TrimSpace(r.target)) in idByName && NormalizeRelType(r.kind) != ""
  }

  /** The row runs from the entity of the relation's source to that of its target, from now on. */
  ghost predicate RowFor(row: Edge, idByName: map<string, string>, vault: string, r: ExtractedRelation, id: string, now: string) {
    && Asks(idByName, r)
    && row.source == idByName[Lower(TrimSpace(r.source))] && row.target == idByName[Lower(TrimSpace(r.target))]
    && row.kind == NormalizeRelType(r.kind) && row.fact == TrimSpace(r.fact)
    && row.id == id && row.vault == vault && row.validFrom == now && row.createdAt == now
  }

  /** The id is neither that of a row nor that of an earlier relation that got one. */
  ghost predicate Unused(rows: seq<Edge>, ks: seq<nat>, freshId: nat -> string, n: nat, k: nat) {
    && freshId(n + k) != ""
    && (forall i | 0 <= i < |rows| :: rows[i].id != freshId(n + k))
    && (forall j | 0 <= j < |ks| && ks[j] < k :: freshId(n + ks[j]) != freshId(n + k))
  }

  /** Of the first m relations ks are, in order, those that ask for a row under an unused id. */
  ghost predicate Picked(rows: seq<Edge>, idByName: map<string, string>, rs: seq<ExtractedRelation>, m: nat, freshId: nat -> string,
                         n: nat, ks: seq<nat>) {
    && m <= |rs| && (forall j | 0 <= j < |ks| :: ks[j] < m) && (forall i, j | 0 <= i < j < |ks| :: ks[i] < ks[j])
    && (forall k | 0 <= k < m :: k in ks <==> Asks(idByName, rs[k]) && Unused(rows, ks, freshId, n, k))
  }

  /** The table has gained one row for each of the relations ks, in their order; old rows keep what no write changes. */
  ghost predicate Written(rows: seq<Edge>, after: seq<Edge>, idByName: map<string, string>, vault: string, rs: seq<ExtractedRelation>,
                          freshId: nat -> string, clock: nat -> string, n: nat, ks: seq<nat>) {
    && |after| == |rows| + |ks|
    && (forall i | 0 <= i < |rows| :: after[i] == rows[i].(validUntil := after[i].validUntil, invalidatedAt := after[i].invalidatedAt))
    && (forall j | 0 <= j < |ks| :: ks[j] < |rs|
          && RowFor(after[|rows| + j], idByName, vault, rs[ks[j]], freshId(n + ks[j]), clock(n + ks[j])))
  }

  /** What one relation adds: the row for it, unless it asks for none or its id is taken. */
  ghost predicate OneWritten(rows: seq<Edge>, after: seq<Edge>, idByName: map<string, string>, vault: string, r: ExtractedRelation,
                             id: string, now: string) {
    if Asks(idByName, r) && id != "" && forall i | 0 <= i < |rows| :: rows[i].id != id then
      && |after| == |rows| + 1 && RowFor(after[|rows|], idByName, vault, r, id, now) && after[|rows|].invalidatedAt == ""
      && forall i | 0 <= i < |rows| :: RowAfter(rows[i], after[i], after[|rows|], true, now)
    else after == rows
  }

  lemma AssertionColumns(rows: seq<Edge>, idByName: map<string, string>, vault: string, r: ExtractedRelation, id: string, now: string,
                         parse: string -> string)
    ensures OneWritten(rows, AfterAll(rows, Assertion(idByName, vault, r, id, now, parse)), idByName, vault, r, id, now)
  {
    hide TrimSpace, Lower, NormalizeRelType, Asserted, Stored, RowAfter;
    var ws := Assertion(idByName, vault, r, id, now, parse);
    if Asks(idByName, r) {
      var source, target := idByName[Lower(TrimSpace(r.source))], idByName[Lower(TrimSpace(r.target))];
      var e := Edge(id, vault, source, target, NormalizeRelType(r.kind), TrimSpace(r.fact), "", "", "", "");
      assert ws == [Assert(Stored(e, now, parse), true, now)] && ws[..0] == [];
      AssertedColumns(rows, e, true, now, parse);
    }
  }

  /** An id is taken in the grown table when an old row or one of the relations written has it. */
  lemma TakenIn(rows: seq<Edge>, before: seq<Edge>, freshId: nat -> string, n: nat, ks: seq<nat>, id: string)
    requires |before| == |rows| + |ks| && forall i | 0 <= i < |rows| :: before[i].id == rows[i].id
    requires forall j | 0 <= j < |ks| :: before[|rows| + j].id == freshId(n + ks[j])
    ensures (forall i | 0 <= i < |before| :: before[i].id != id)
      <==> (forall i | 0 <= i < |rows| :: rows[i].id != id) && forall j | 0 <= j < |ks| :: freshId(n + ks[j]) != id
  {
    assert forall i | |rows| <= i < |before| :: before[i].id == freshId(n + ks[i - |rows|]);
  }

  lemma UnusedNext(rows: seq<Edge>, freshId: nat -> string, n: nat, ks: seq<nat>, m: nat, k: nat)
    requires k <= m
    ensures Unused(rows, ks + [m], freshId, n, k) <==> Unused(rows, ks, freshId, n, k)
  {
    assert forall j | 0 <= j < |ks| :: (ks + [m])[j] == ks[j];
  }

  lemma PickedNext(rows: seq<Edge>, idByName: map<string, string>, rs: seq<ExtractedRelation>, m: nat, freshId: nat -> string,
                   n: nat, ks: seq<nat>)
    requires m < |rs| && Picked(rows, idByName, rs, m, freshId, n, ks)
    ensures Picked(rows, idByName, rs, m + 1, freshId, n, if Asks(idByName, rs[m]) && Unused(rows, ks, freshId, n, m) then ks + [m] else ks)
  {
    hide Asks, Unused;
    var next := if Asks(idByName, rs[m]) && Unused(rows, ks, freshId, n, m) then ks + [m] else ks;
    forall k | 0 <= k <= m
      ensures k in next <==> Asks(idByName, rs[k]) && Unused(rows, next, freshId, n, k) {
      UnusedNext(rows, freshId, n, ks, m, k);
    }
  }

  lemma WrittenMore(rows: seq<Edge>, before: seq<Edge>, after: seq<Edge>, idByName: map<string, string>, vault: string,
                    rs: seq<ExtractedRelation>, m: nat, freshId: nat -> string, clock: nat -> string, n: nat, ks: seq<nat>)
    requires m < |rs| && Written(rows, before, idByName, vault, rs, freshId, clock, n, ks) && |after| == |before| + 1
    requires forall i | 0 <= i < |before| :: after[i] == before[i].(validUntil := after[i].validUntil, invalidatedAt := after[i].invalidatedAt)
    requires RowFor(after[|before|], idByName, vault, rs[m], freshId(n + m), clock(n + m))
    ensures Written(rows, after, idByName, vault, rs, freshId, clock, n, ks + [m])
  {
    hide RowFor;
    var next := ks + [m];
    forall j | 0 <= j < |next|
      ensures next[j] < |rs| && RowFor(after[|rows| + j], idByName, vault, rs[next[j]], freshId(n + next[j]), clock(n + next[j])) {
      if j < |ks| {
        RowForStays(before[|rows| + j], after[|rows| + j], idByName, vault, rs[ks[j]], freshId(n + ks[j]), clock(n + ks[j]));
      }
    }
  }

  lemma UnusedIsFree(rows: seq<Edge>, before: seq<Edge>, idByName: map<string, string>, vault: string, rs: seq<ExtractedRelation>,
                     m: nat, freshId: nat -> string, clock: nat -> string, n: nat, ks: seq<nat>)
    requires Written(rows, before, idByName, vault, rs, freshId, clock, n, ks) && forall j | 0 <= j < |ks| :: ks[j] < m
    ensures Unused(rows, ks, freshId, n, m)
      <==> freshId(n + m) != "" && forall i | 0 <= i < |before| :: before[i].id != freshId(n + m)
  {
    hide Asks, TrimSpace, Lower, NormalizeRelType;
    assert forall j | 0 <= j < |ks| :: before[|rows| + j].id == freshId(n + ks[j]);
    TakenIn(rows, before, freshId, n, ks, freshId(n + m));
  }

  lemma WrittenNext(rows: seq<Edge>, before: seq<Edge>, after: seq<Edge>, idByName: map<string, string>, vault: string,
                    rs: seq<ExtractedRelation>, m: nat, freshId: nat -> string, clock: nat -> string, n: nat, ks: seq<nat>)
    requires m < |rs| && Written(rows, before, idByName, vault, rs, freshId, clock, n, ks)
    requires forall j | 0 <= j < |ks| :: ks[j] < m
    requires OneWritten(before, after, idByName, vault, rs[m], freshId(n + m), clock(n + m))
    ensures Written(rows, after, idByName, vault, rs, freshId, clock, n,
                    if Asks(idByName, rs[m]) && Unused(rows, ks, freshId, n, m) then ks + [m] else ks)
  {
    hide Asks, Less, RowFor, Unused, Written, RowAfter;
    UnusedIsFree(rows, before, idByName, vault, rs, m, freshId, clock, n, ks);
    if Asks(idByName, rs[m]) && Unused(rows, ks, freshId, n, m) {
      forall i | 0 <= i < |before| ensures after[i] == before[i].(validUntil := after[i].validUntil, invalidatedAt := after[i].invalidatedAt) {
        RowAfterKeeps(before[i], after[i], after[|before|], clock(n + m));
      }
      WrittenMore(rows, before, after, idByName, vault, rs, m, freshId, clock, n, ks);
    }
  }

  lemma RowAfterKeeps(before: Edge, after: Edge, e: Edge, now: string)
    requires RowAfter(before, after, e, true, now)
    ensures after == before.(validUntil := after.validUntil, invalidatedAt := after.invalidatedAt)
  {
  }

  lemma RowForStays(row: Edge, after: Edge, idByName: map<string, string>, vault: string, r: ExtractedRelation, id: string, now: string)
    requires RowFor(row, idByName, vault, r, id, now)
    requires after == row.(validUntil := after.validUntil, invalidatedAt := after.invalidatedAt)
    ensures RowFor(after, idByName, vault, r, id, now)
  {
    hide TrimSpace, Lower, NormalizeRelType;
  }

  /** Ingestion adds a row for each relation that asks for one, in the order of the text, and no other row. */
  lemma {:induction false} IngestedRows(rows: seq<Edge>, idByName: map<string, string>, vault: string, rs: seq<ExtractedRelation>,
                                        m: nat, freshId: nat -> string, clock: nat -> string, n: nat, parse: string -> string)
    returns (ks: seq<nat>)
    requires m <= |rs|
    ensures Picked(rows, idByName, rs, m, freshId, n, ks)
    ensures Written(rows, AfterAll(rows, Assertions(idByName, vault, rs[..m], freshId, clock, n, parse)),
                    idByName, vault, rs, freshId, clock, n, ks)
  {
    hide *;
    if m == 0 {
      ks := [];
      NothingWritten(rows, idByName, vault, rs, freshId, clock, n, parse);
    } else {
      var k := m - 1;
      ks := IngestedRows(rows, idByName, vault, rs, k, freshId, clock, n, parse);
      OneMoreIngested(rows, idByName, vault, rs, k, freshId, clock, n, parse, ks);
      if Asks(idByName, rs[k]) && Unused(rows, ks, freshId, n, k) { ks := ks + [k]; }
    }
  }

  lemma NothingWritten(rows: seq<Edge>, idByName: map<string, string>, vault: string, rs: seq<ExtractedRelation>,
                       freshId: nat -> string, clock: nat -> string, n: nat, parse: string -> string)
    ensures Picked(rows, idByName, rs, 0, freshId, n, [])
    ensures Written(rows, AfterAll(rows, Assertions(idByName, vault, rs[..0], freshId, clock, n, parse)),
                    idByName, vault, rs, freshId, clock, n, [])
  {
  }

  lemma OneMoreIngested(rows: seq<Edge>, idByName: map<string, string>, vault: string, rs: seq<ExtractedRelation>,
                        k: nat, freshId: nat -> string, clock: nat -> string, n: nat, parse: string -> string, ks: seq<nat>)
    requires k < |rs| && Picked(rows, idByName, rs, k, freshId, n, ks)
    requires Written(rows, AfterAll(rows, Assertions(idByName, vault, rs[..k], freshId, clock, n, parse)),
                     idByName, vault, rs, freshId, clock, n, ks)
    ensures var next := if Asks(idByName, rs[k]) && Unused(rows, ks, freshId, n, k) then ks + [k] else ks;
      && Picked(rows, idByName, rs, k + 1, freshId, n, next)
      && Written(rows, AfterAll(rows, Assertions(idByName, vault, rs[..k + 1], freshId, clock, n, parse)),
                 idByName, vault, rs, freshId, clock, n, next)
  {
    hide *;
    var ws := Assertions(idByName, vault, rs[..k], freshId, clock, n, parse);
    var more := Assertion(idByName, vault, rs[k], freshId(n + k), clock(n + k), parse);
    AssertionsNext(idByName, vault, rs, k, freshId, clock, n, parse);
    AtMostOne(idByName, vault, rs[k], freshId(n + k), clock(n + k), parse);
    AfterAllNext(rows, ws, more);
    AssertionColumns(AfterAll(rows, ws), idByName, vault, rs[k], freshId(n + k), clock(n + k), parse);
    PickedNext(rows, idByName, rs, k, freshId, n, ks);
    PickedBelow(rows, idByName, rs, k, freshId, n, ks);
    WrittenNext(rows, AfterAll(rows, ws), AfterAll(rows, ws + more), idByName, vault, rs, k, freshId, clock, n, ks);
  }

  lemma PickedBelow(rows: seq<Edge>, idByName: map<string, string>, rs: seq<ExtractedRelation>, m: nat, freshId: nat -> string,
                    n: nat, ks: seq<nat>)
    requires Picked(rows, idByName, rs, m, freshId, n, ks)
    ensures forall j | 0 <= j < |ks| :: ks[j] < m
  {
    hide Asks, Unused;
  }

  /** A row is live exactly when it was, or is new, and no new row behind it has its vault, source and type. */
  ghost predicate LiveUnlessFollowed(rows: seq<Edge>, after: seq<Edge>) {
    && |after| >= |rows|
    && forall i | 0 <= i < |after| :: after[i].invalidatedAt == "" <==>
         && (i < |rows| ==> rows[i].invalidatedAt == "")
         && forall j | i < j < |after| && |rows| <= j :: Differ(after[j], after[i])
  }

  ghost predicate Differ(a: Edge, b: Edge) {
    a.vault != b.vault || a.source != b.source || a.kind != b.kind
  }

  lemma FollowedNext(rows: seq<Edge>, before: seq<Edge>, after: seq<Edge>, idByName: map<string, string>, vault: string,
                     r: ExtractedRelation, id: string, now: string)
    requires LiveUnlessFollowed(rows, before) && OneWritten(before, after, idByName, vault, r, id, now) && now != ""
    ensures LiveUnlessFollowed(rows, after)
  {
    hide RowFor, Asks, Less;
    if |after| > |before| {
      forall i | 0 <= i < |before|
        ensures after[i].vault == before[i].vault && after[i].source == before[i].source && after[i].kind == before[i].kind
        ensures after[i].invalidatedAt == "" <==> before[i].invalidatedAt == "" && Differ(after[|before|], after[i]) {
        assert RowAfter(before[i], after[i], after[|before|], true, now);
      }
    }
  }

  /** Of the edges of one source and type that a text leaves, only the last is live. */
  lemma {:induction false} IngestionSupersedes(rows: seq<Edge>, idByName: map<string, string>, vault: string, rs: seq<ExtractedRelation>,
                                               m: nat, freshId: nat -> string, clock: nat -> string, n: nat, parse: string -> string)
    requires m <= |rs| && forall i :: clock(i) != ""
    ensures LiveUnlessFollowed(rows, AfterAll(rows, Assertions(idByName, vault, rs[..m], freshId, clock, n, parse)))
  {
    if m > 0 {
      hide *;
      var k := m - 1;
      IngestionSupersedes(rows, idByName, vault, rs, k, freshId, clock, n, parse);
      var ws := Assertions(idByName, vault, rs[..k], freshId, clock, n, parse);
      var more := Assertion(idByName, vault, rs[k], freshId(n + k), clock(n + k), parse);
      AssertionsNext(idByName, vault, rs, k, freshId, clock, n, parse);
      AtMostOne(idByName, vault, rs[k], freshId(n + k), clock(n + k), parse);
      AfterAllNext(rows, ws, more);
      AssertionColumns(AfterAll(rows, ws), idByName, vault, rs[k], freshId(n + k), clock(n + k), parse);
      FollowedNext(rows, AfterAll(rows, ws), AfterAll(rows, ws + more), idByName, vault, rs[k], freshId(n + k), clock(n + k));
    }
  }

  /** What ingestion leaves in the edge table: idByName names the entities, ks the relations that got a row. */
  ghost predicate Ingested(rows: seq<Edge>, after: seq<Edge>, idByName: map<string, string>, vault: string, rs: seq<ExtractedRelation>,
                           freshId: nat -> string, clock: nat -> string, n: nat, ks: seq<nat>) {
    && Picked(rows, idByName, rs, |rs|, freshId, n, ks)
    && Written(rows, after, idByName, vault, rs, freshId, clock, n, ks)
    && ((forall i :: clock(i) != "") ==> LiveUnlessFollowed(rows, after))
  }

  lemma IngestionColumns(rows: seq<Edge>, idByName: map<string, string>, vault: string, rs: seq<ExtractedRelation>,
                         freshId: nat -> string, clock: nat -> string, n: nat, parse: string -> string) returns (ks: seq<nat>)
    ensures Ingested(rows, AfterAll(rows, Assertions(idByName, vault, rs, freshId, clock, n, parse)),
                     idByName, vault, rs, freshId, clock, n, ks)
  {
    hide Picked, Written, LiveUnlessFollowed;
    assert rs[..|rs|] == rs;
    ks := IngestedRows(rows, idByName, vault, rs, |rs|, freshId, clock, n, parse);
    if forall i :: clock(i) != "" { IngestionSupersedes(rows, idByName, vault, rs, |rs|, freshId, clock, n, parse); }
  }
}
