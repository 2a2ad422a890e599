/** What the extraction of a text writes: names resolved to entities, then superseding assertions between them. */
module Ingestion {
  import opened Basics
  import opened Lex
  import opened GraphStore
  import opened Words
  import opened EntityNames
  import opened Entities

  datatype ExtractedEntity = ExtractedEntity(name: string, kind: string)

  datatype ExtractedRelation = ExtractedRelation(source: string, target: string, kind: string, fact: string)

  /** What the first loop of IngestText has resolved. */
  datatype Names = Names(rows: seq<Entity>, idByName: map<string, string>, count: nat)

  /** Upserts the extracted entities; the i-th call uses the i-th fresh id and clock reading. */
  function Resolve(rows: seq<Entity>, vault: string, es: seq<ExtractedEntity>, freshId: nat -> string, clock: nat -> string): Names {
    if es == [] then Names(rows, map[], 0)
    else
      var i := |es| - 1;
      var before := Resolve(rows, vault, es[..i], freshId, clock);
      var name := TrimSpace(es[i].name);
      if name == "" then before
      else
        var (after, r) := Upserted(before.rows, Entity(freshId(i), vault, name, NormalizeKind(es[i].kind), "", "", ""), clock(i));
        if r.Ok? then Names(after, before.idByName[Lower(name) := r.value], before.count + 1) else before.(rows := after)
  }

  /** The id is that of an entity of the vault with this name, whatever its kind and case. */
  ghost predicate Carries(rows: seq<Entity>, vault: string, lowered: string, id: string) {
    exists i :: 0 <= i < |rows| && rows[i].id == id && rows[i].vault == vault && Lower(rows[i].name) == lowered
  }

  /** Every resolved name denotes an entity of that name in the vault. */
  ghost predicate Resolved(names: Names, vault: string) {
    forall n | n in names.idByName :: Carries(names.rows, vault, n, names.idByName[n])
  }

  lemma SurviveOnwards(a: seq<Entity>, b: seq<Entity>, c: seq<Entity>)
    requires Survive(a, b) && Survive(b, c)
    ensures Survive(a, c)
  {
    forall i | 0 <= i < |a| ensures c[i].id == a[i].id && SameEntity(c[i], a[i]) {
      assert b[i].id == a[i].id && SameEntity(b[i], a[i]) && SameEntity(c[i], b[i]);
    }
  }

  lemma NameSurvives(rows: seq<Entity>, after: seq<Entity>, vault: string, lowered: string, id: string)
    requires Survive(rows, after) && Carries(rows, vault, lowered, id)
    ensures Carries(after, vault, lowered, id)
  {
    var i :| 0 <= i < |rows| && rows[i].id == id && rows[i].vault == vault && Lower(rows[i].name) == lowered;
    assert after[i].id == id;
  }

  /** Resolving keeps entities deduplicated and every row, and gives each name the id of an entity that carries it. */
  lemma {:induction false} ResolveDenotes(rows: seq<Entity>, vault: string, es: seq<ExtractedEntity>, freshId: nat -> string, clock: nat -> string)
    requires Deduplicated(rows)
    ensures var names := Resolve(rows, vault, es, freshId, clock);
      Deduplicated(names.rows) && Survive(rows, names.rows) && Resolved(names, vault)
  {
    hide Deduplicated, Upserted, TrimSpace, NormalizeKind;
    if es == [] {
    } else {
      var i := |es| - 1;
      var before := Resolve(rows, vault, es[..i], freshId, clock);
      ResolveDenotes(rows, vault, es[..i], freshId, clock);
      var name := TrimSpace(es[i].name);
      if name != "" {
        var e := Entity(freshId(i), vault, name, NormalizeKind(es[i].kind), "", "", "");
        UpsertDeduplicates(before.rows, e, clock(i));
        var (after, r) := Upserted(before.rows, e, clock(i));
        SurviveOnwards(rows, before.rows, after);
        forall n | n in before.idByName ensures Carries(after, vault, n, before.idByName[n]) {
          NameSurvives(before.rows, after, vault, n, before.idByName[n]);
        }
        if r.Ok? {
          var j :| 0 <= j < |after| && after[j].id == r.value && SameEntity(after[j], e);
          assert Carries(after, vault, Lower(name), r.value);
        }
      }
    }
  }

  /** The edge a relation asks for; None when an end is unknown or the relation type is empty. */
  function Requested(idByName: map<string, string>, vault: string, r: ExtractedRelation, id: string): seq<Edge> {
    var source, target, kind := Lower(TrimSpace(r.source)), Lower(TrimSpace(r.target)), NormalizeRelType(r.kind);
    if source !in idByName || target !in idByName || kind == "" then []
    else [Edge(id, vault, idByName[source], idByName[target], kind, TrimSpace(r.fact), "", "", "", "")]
  }

  /** The superseding assertions that ingestion makes; call number n + i for the i-th relation. */
  function Assertions(idByName: map<string, string>, vault: string, rs: seq<ExtractedRelation>,
                      freshId: nat -> string, clock: nat -> string, n: nat, parse: string -> string): seq<Write> {
    if rs == [] then []
    else
      var i := |rs| - 1;
      var before := Assertions(idByName, vault, rs[..i], freshId, clock, n, parse);
      var e := Requested(idByName, vault, rs[i], freshId(n + i));
      if e == [] then before else before + [Assert(Stored(e[0], clock(n + i), parse), true, clock(n + i))]
  }

  /** The assertion for one relation, if it makes one. */
  function Assertion(idByName: map<string, string>, vault: string, r: ExtractedRelation, id: string, now: string,
                     parse: string -> string): seq<Write> {
    var e := Requested(idByName, vault, r, id);
    if e == [] then [] else [Assert(Stored(e[0], now, parse), true, now)]
  }

  lemma AtMostOne(idByName: map<string, string>, vault: string, r: ExtractedRelation, id: string, now: string,
                  parse: string -> string)
    ensures |Assertion(idByName, vault, r, id, now, parse)| <= 1
  {
  }

  lemma AssertionsNext(idByName: map<string, string>, vault: string, rs: seq<ExtractedRelation>, i: nat,
                       freshId: nat -> string, clock: nat -> string, n: nat, parse: string -> string)
    requires i < |rs|
    ensures Assertions(idByName, vault, rs[..i + 1], freshId, clock, n, parse)
      == Assertions(idByName, vault, rs[..i], freshId, clock, n, parse)
        + Assertion(idByName, vault, rs[i], freshId(n + i), clock(n + i), parse)
  {
    hide Requested, Stored;
    assert rs[..i + 1][..i] == rs[..i] && rs[..i + 1][i] == rs[i];
    var before := Assertions(idByName, vault, rs[..i], freshId, clock, n, parse);
    assert before + [] == before;
  }

  lemma AfterAllNext(rows: seq<Edge>, ws: seq<Write>, more: seq<Write>)
    requires |more| <= 1
    ensures AfterAll(rows, ws + more) == AfterAll(AfterAll(rows, ws), more)
  {
    if more == [] { assert ws + more == ws; } else { assert (ws + more)[..|ws|] == ws && more[..0] == []; }
  }

  ghost predicate ForwardClock(clock: nat -> string) {
    && (forall i :: clock(i) != "")
    && (forall i, j | i <= j :: !Less(clock(j), clock(i)))
  }

  /** A forward run within [low, high]. */
  ghost predicate ForwardWithin(ws: seq<Write>, low: string, high: string) {
    && ForwardRun(ws)
    && (forall i | 0 <= i < |ws| :: !Less(ws[i].e.validFrom, low) && !Less(high, ws[i].e.validFrom))
  }

  lemma ForwardNext(ws: seq<Write>, low: string, now: string, high: string, more: seq<Write>)
    requires ForwardWithin(ws, low, now) && !Less(high, now) && !Less(now, low) && now != ""
    requires |more| <= 1
    requires forall w | w in more ::
      w.Assert? && w.invalidatePrior && w.now == now && w.e.validFrom == now && w.e.validUntil == "" && Live(w.e)
    ensures ForwardWithin(ws + more, low, high)
  {
    LessIrreflexive(now);
    forall i | 0 <= i < |ws| ensures !Less(high, ws[i].e.validFrom) {
      NotLessTransitive(high, now, ws[i].e.validFrom);
    }
  }

  lemma {:induction false} AssertionsRunForward(idByName: map<string, string>, vault: string, rs: seq<ExtractedRelation>,
                               freshId: nat -> string, clock: nat -> string, n: nat, parse: string -> string)
    requires ForwardClock(clock)
    ensures ForwardWithin(Assertions(idByName, vault, rs, freshId, clock, n, parse), clock(n), clock(n + |rs|))
  {
    hide ForwardWithin, TrimSpace, Lower, NormalizeRelType, Assertions;
    if rs == [] {
      NoAssertions(idByName, vault, freshId, clock, n, parse);
    } else {
      var m := |rs| - 1;
      AssertionsRunForward(idByName, vault, rs[..m], freshId, clock, n, parse);
      AssertionsNext(idByName, vault, rs, m, freshId, clock, n, parse);
      assert rs[..m + 1] == rs;
      ForwardNext(Assertions(idByName, vault, rs[..m], freshId, clock, n, parse), clock(n), clock(n + m), clock(n + m + 1),
        Assertion(idByName, vault, rs[m], freshId(n + m), clock(n + m), parse));
    }
  }

  lemma NoAssertions(idByName: map<string, string>, vault: string, freshId: nat -> string, clock: nat -> string, n: nat,
                     parse: string -> string)
    ensures Assertions(idByName, vault, [], freshId, clock, n, parse) == []
    ensures ForwardWithin([], clock(n), clock(n))
  {
  }

  /** Ingesting any texts under a clock that never goes back keeps every relation single-valued. */
  lemma IngestionKeepsChain(rows: seq<Edge>, idByName: map<string, string>, vault: string, rs: seq<ExtractedRelation>,
                            freshId: nat -> string, clock: nat -> string, n: nat, parse: string -> string, key: Edge)
    requires ForwardClock(clock) && Chain(KeyRows(rows, key)) && ValidFromBy(rows, clock(n))
    ensures var after := AfterAll(rows, Assertions(idByName, vault, rs, freshId, clock, n, parse));
      Chain(KeyRows(after, key)) && ValidFromBy(after, clock(n + |rs|))
  {
    var ws := Assertions(idByName, vault, rs, freshId, clock, n, parse);
    AssertionsRunForward(idByName, vault, rs, freshId, clock, n, parse);
    if ws == [] {
      BoundMoves(rows, clock(n), clock(n + |rs|));
    } else {
      BoundMoves(rows, clock(n), ws[0].e.validFrom);
      ForwardRunKeepsChain(rows, ws, key);
      BoundMoves(AfterAll(rows, ws), ws[|ws| - 1].e.validFrom, clock(n + |rs|));
    }
  }

  /** Rows before n keep their ends; from n on both ends are among the ids. */
  ghost predicate EndsAmong(rows: seq<Edge>, after: seq<Edge>, ids: set<string>) {
    && |after| >= |rows|
    && (forall i | 0 <= i < |rows| :: after[i].source == rows[i].source && after[i].target == rows[i].target)
    && (forall i | |rows| <= i < |after| :: after[i].source in ids && after[i].target in ids)
  }

  lemma {:induction false} RunEndsAmong(rows: seq<Edge>, ws: seq<Write>, ids: set<string>)
    requires forall i | 0 <= i < |ws| :: ws[i].Assert? && ws[i].e.source in ids && ws[i].e.target in ids
    ensures EndsAmong(rows, AfterAll(rows, ws), ids)
  {
    if ws == [] {
    } else {
      RunEndsAmong(rows, ws[..|ws| - 1], ids);
    }
  }

  lemma AssertionJoins(idByName: map<string, string>, vault: string, r: ExtractedRelation, id: string, now: string,
                       parse: string -> string)
    ensures forall w | w in Assertion(idByName, vault, r, id, now, parse) ::
      w.Assert? && w.e.source in idByName.Values && w.e.target in idByName.Values
  {
    hide TrimSpace, Lower, NormalizeRelType;
  }

  lemma {:induction false} AssertionsJoin(idByName: map<string, string>, vault: string, rs: seq<ExtractedRelation>,
                                          freshId: nat -> string, clock: nat -> string, n: nat, parse: string -> string)
    ensures forall w | w in Assertions(idByName, vault, rs, freshId, clock, n, parse) ::
      w.Assert? && w.e.source in idByName.Values && w.e.target in idByName.Values
  {
    hide Assertion;
    if rs == [] {
    } else {
      hide Assertions;
      var m := |rs| - 1;
      AssertionsJoin(idByName, vault, rs[..m], freshId, clock, n, parse);
      AssertionsNext(idByName, vault, rs, m, freshId, clock, n, parse);
      AssertionJoins(idByName, vault, rs[m], freshId(n + m), clock(n + m), parse);
      assert rs[..m + 1] == rs;
    }
  }

  ghost function IdsOf(rows: seq<Entity>): set<string> {
    set e | e in rows :: e.id
  }

  /** Ingestion never writes an edge with an unknown end, and leaves entities deduplicated and the ends of old edges alone. */
  lemma IngestedEdgesJoinEntities(rows: seq<Edge>, entities: seq<Entity>, vault: string, es: seq<ExtractedEntity>,
                                  rs: seq<ExtractedRelation>, freshId: nat -> string, clock: nat -> string, parse: string -> string)
    requires Deduplicated(entities)
    ensures var names := Resolve(entities, vault, es, freshId, clock);
      && Deduplicated(names.rows) && Survive(entities, names.rows) && Resolved(names, vault)
      && EndsAmong(rows, AfterAll(rows, Assertions(names.idByName, vault, rs, freshId, clock, |es|, parse)), IdsOf(names.rows))
  {
    hide Assertions, Resolve, Deduplicated, AfterAll;
    var names := Resolve(entities, vault, es, freshId, clock);
    ResolveDenotes(entities, vault, es, freshId, clock);
    AssertionsJoin(names.idByName, vault, rs, freshId, clock, |es|, parse);
    forall id | id in names.idByName.Values ensures id in IdsOf(names.rows) {
      var n :| n in names.idByName && names.idByName[n] == id;
      var i :| 0 <= i < |names.rows| && names.rows[i].id == id;
      assert names.rows[i] in names.rows;
    }
    RunEndsAmong(rows, Assertions(names.idByName, vault, rs, freshId, clock, |es|, parse), IdsOf(names.rows));
  }
}
