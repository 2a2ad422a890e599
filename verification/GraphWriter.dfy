/** The graph store as it is written: edges, entities, and the extraction of a text. */
module GraphWriter {
  import opened Basics
  import opened Lex
  import opened GraphStore
  import opened Words
  import opened EntityNames
  import opened Entities
  import opened Ingestion
  import opened IngestedTables

  class Store {
    var edges: seq<Edge>
    var entities: seq<Entity>

    constructor ()
      ensures edges == [] && entities == []
    {
      edges, entities := [], [];
    }

    method AddEdge(e: Edge, invalidatePrior: bool, now: string, parse: string -> string) returns (r: Result<string>)
      modifies this`edges
      ensures edges == After(old(edges), Assert(Stored(e, now, parse), invalidatePrior, now))
      ensures r.Ok? <==> e.id != "" && forall i | 0 <= i < |old(edges)| :: old(edges)[i].id != e.id
      ensures if r.Ok? then r.value == e.id && EdgeAdded(old(edges), edges, e, invalidatePrior, now, parse) else edges == old(edges)
    {
      AssertedColumns(edges, e, invalidatePrior, now, parse);
      var row := e.(validFrom := Normalize(parse, e.validFrom), validUntil := Normalize(parse, e.validUntil));
      if row.validFrom == "" {
        row := row.(validFrom := now);
      }
      row := row.(createdAt := now, invalidatedAt := "");
      if e.id == "" {
        return Err("empty id");
      }
      var rows := edges; // the transaction's view
      if invalidatePrior {
        rows := SupersededAll(rows, row, now);
      }
      if HasId(rows, row.id) {
        SupersedingKeepsIds(edges, row, now);
        return Err("insert edge"); // primary key; the update is rolled back
      }
      SupersedingKeepsIds(edges, row, now);
      edges := rows + [row];
      return Ok(e.id);
    }

    /** Marks a live edge invalidated; an error when there is none with this id. */
    method InvalidateEdge(id: string, now: string) returns (r: Result<()>)
      modifies this`edges
      ensures edges == After(old(edges), Invalidate(id, now)) && |edges| == |old(edges)|
      ensures forall i | 0 <= i < |edges| ::
        edges[i] == if old(edges)[i].id == id && old(edges)[i].invalidatedAt == "" then old(edges)[i].(invalidatedAt := now) else old(edges)[i]
      ensures r.Ok? <==> exists i :: 0 <= i < |old(edges)| && old(edges)[i].id == id && old(edges)[i].invalidatedAt == ""
    {
      var affected := exists i :: 0 <= i < |edges| && edges[i].id == id && Live(edges[i]);
      edges := Invalidated(edges, id, now);
      r := if affected then Ok(()) else Err("not found or already invalidated");
    }

    method Edges(q: EdgeQuery) returns (out: seq<Edge>)
      ensures Answers(out, edges, q) && out == Answer(edges, q)
    {
      hide Answers, LatestFirst, Select;
      AnswerAnswers(edges, q);
      var limit := q.limit;
      if limit <= 0 || limit > 1000 {
        limit := 100;
      }
      out := Take(LatestFirst(Select(edges, q)), limit);
    }

    method UpsertEntity(e: Entity, now: string) returns (r: Result<string>)
      modifies this`entities
      ensures (entities, r) == Upserted(old(entities), e, now)
      ensures UpsertedRows(old(entities), entities, e, now, r)
    {
      UpsertColumns(entities, e, now);
      if e.id == "" {
        return Err("empty id");
      }
      var i := FindEntity(entities, e);
      if i == |entities| {
        if HasEntityId(entities, e.id) {
          return Err("insert entity");
        }
        entities := entities + [e.(createdAt := now, updatedAt := now)];
        return Ok(e.id);
      }
      if e.summary != "" {
        entities := entities[i := entities[i].(summary := e.summary, updatedAt := now)];
      }
      return Ok(entities[i].id);
    }

    /** Upserts the entities and keeps the id of each name. */
    method ResolveNames(vault: string, es: seq<ExtractedEntity>, freshId: nat -> string, clock: nat -> string)
      returns (idByName: map<string, string>, count: nat)
      modifies this`entities
      ensures Names(entities, idByName, count) == Resolve(old(entities), vault, es, freshId, clock)
      ensures Deduplicated(old(entities)) ==> Deduplicated(entities) && Survive(old(entities), entities)
      ensures Deduplicated(old(entities)) ==> forall n | n in idByName :: Carries(entities, vault, n, idByName[n])
      ensures Fresh(freshId, old(entities)) ==>
        Named(entities, idByName, vault, es) && Grown(old(entities), entities, freshId, |es|) && count == NotBlank(es)
    {
      if Deduplicated(entities) { ResolveDenotes(entities, vault, es, freshId, clock); }
      if Fresh(freshId, entities) { ResolveFinds(entities, vault, es, freshId, clock); }
      idByName, count := map[], 0;
      for i := 0 to |es|
        invariant Names(entities, idByName, count) == Resolve(old(entities), vault, es[..i], freshId, clock)
      {
        hide Upserted, TrimSpace, Lower, NormalizeKind;
        assert es[..i + 1][..i] == es[..i];
        var name := TrimSpace(es[i].name);
        if name == "" {
          continue;
        }
        var r := UpsertEntity(Entity(freshId(i), vault, name, NormalizeKind(es[i].kind), "", "", ""), clock(i));
        if r.Err? {
          continue;
        }
        idByName := idByName[Lower(name) := r.value];
        count := count + 1;
      }
      assert es[..|es|] == es;
    }

    /** Asserts the superseding edge of one relation if its ends are known and its type is not empty. */
    method AssertRelation(idByName: map<string, string>, vault: string, r: ExtractedRelation, id: string, now: string,
                          parse: string -> string) returns (written: bool)
      modifies this`edges
      ensures edges == AfterAll(old(edges), Assertion(idByName, vault, r, id, now, parse))
      ensures OneWritten(old(edges), edges, idByName, vault, r, id, now) && |edges| == |old(edges)| + if written then 1 else 0
    {
      AssertionColumns(edges, idByName, vault, r, id, now, parse);
      hide TrimSpace, Lower, NormalizeRelType, Stored;
      var source, target, kind := Lower(TrimSpace(r.source)), Lower(TrimSpace(r.target)), NormalizeRelType(r.kind);
      if source !in idByName || target !in idByName || kind == "" {
        return false;
      }
      var e := Edge(id, vault, idByName[source], idByName[target], kind, TrimSpace(r.fact), "", "", "", "");
      ghost var w := Assert(Stored(e, now, parse), true, now);
      assert Assertion(idByName, vault, r, id, now, parse) == [w] && [w][..0] == [];
      var result := AddEdge(e, true, now, parse);
      return result.Ok?;
    }

    method AssertRelations(idByName: map<string, string>, vault: string, rs: seq<ExtractedRelation>,
                           freshId: nat -> string, clock: nat -> string, n: nat, parse: string -> string) returns (count: nat)
      modifies this`edges
      ensures edges == AfterAll(old(edges), Assertions(idByName, vault, rs, freshId, clock, n, parse))
      ensures exists ks :: Ingested(old(edges), edges, idByName, vault, rs, freshId, clock, n, ks) && count == |ks|
    {
      ghost var ks := IngestionColumns(edges, idByName, vault, rs, freshId, clock, n, parse);
      count := 0;
      for i := 0 to |rs|
        invariant edges == AfterAll(old(edges), Assertions(idByName, vault, rs[..i], freshId, clock, n, parse))
        invariant |edges| == |old(edges)| + count
      {
        hide Assertions, Assertion, After, AfterAll;
        AssertionsNext(idByName, vault, rs, i, freshId, clock, n, parse);
        AtMostOne(idByName, vault, rs[i], freshId(n + i), clock(n + i), parse);
        AfterAllNext(old(edges), Assertions(idByName, vault, rs[..i], freshId, clock, n, parse),
          Assertion(idByName, vault, rs[i], freshId(n + i), clock(n + i), parse));
        var written := AssertRelation(idByName, vault, rs[i], freshId(n + i), clock(n + i), parse);
        if written {
          count := count + 1;
        }
      }
      assert rs[..|rs|] == rs;
    }

    /** Writes an extraction: names to ids first, then the relations between them. */
    method IngestText(vault: string, es: seq<ExtractedEntity>, rs: seq<ExtractedRelation>,
                      freshId: nat -> string, clock: nat -> string, parse: string -> string)
      returns (entityCount: nat, edgeCount: nat)
      modifies this
      ensures var names := Resolve(old(entities), vault, es, freshId, clock);
        && entities == names.rows && entityCount == names.count
        && edges == AfterAll(old(edges), Assertions(names.idByName, vault, rs, freshId, clock, |es|, parse))
      ensures exists idByName, ks ::
        && Ingested(old(edges), edges, idByName, vault, rs, freshId, clock, |es|, ks) && edgeCount == |ks|
        && (Deduplicated(old(entities)) ==> forall n | n in idByName :: Carries(entities, vault, n, idByName[n]))
        && (Fresh(freshId, old(entities)) ==> Named(entities, idByName, vault, es))
      ensures Fresh(freshId, old(entities)) ==> Grown(old(entities), entities, freshId, |es|) && entityCount == NotBlank(es)
      ensures Deduplicated(old(entities)) ==> Deduplicated(entities) && EndsAmong(old(edges), edges, IdsOf(entities))
    {
      hide *;
      if Deduplicated(entities) { IngestedEdgesJoinEntities(edges, entities, vault, es, rs, freshId, clock, parse); }
      var idByName;
      idByName, entityCount := ResolveNames(vault, es, freshId, clock);
      edgeCount := AssertRelations(idByName, vault, rs, freshId, clock, |es|, parse);
    }
  }

  lemma SupersedingKeepsIds(rows: seq<Edge>, e: Edge, now: string)
    ensures forall id :: HasId(SupersededAll(rows, e, now), id) <==> HasId(rows, id)
  {
    forall id ensures HasId(SupersededAll(rows, e, now), id) <==> HasId(rows, id) {
      assert forall i | 0 <= i < |rows| :: SupersededAll(rows, e, now)[i].id == rows[i].id;
      if HasId(rows, id) {
        var i :| 0 <= i < |rows| && rows[i].id == id;
        assert SupersededAll(rows, e, now)[i].id == id;
      }
    }
  }
}
