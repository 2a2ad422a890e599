/** The entity table: one row per name within vault and kind. */
module Entities {
  import opened Basics
  import opened EntityNames

  datatype Entity = Entity(id: string, vault: string, name: string, kind: string, summary: string,
                           createdAt: string, updatedAt: string)

  /** The lookup of UpsertEntity: same vault and kind, same name but for ASCII case. */
  predicate SameEntity(a: Entity, b: Entity) {
    a.vault == b.vault && Lower(a.name) == Lower(b.name) && a.kind == b.kind
  }

  function FindEntity(rows: seq<Entity>, e: Entity): (i: nat)
    ensures i <= |rows| && (i < |rows| ==> SameEntity(rows[i], e)) && forall j | 0 <= j < i :: !SameEntity(rows[j], e)
  {
    if rows == [] then 0 else if SameEntity(rows[0], e) then 0 else 1 + FindEntity(rows[1..], e)
  }

  predicate HasEntityId(rows: seq<Entity>, id: string) {
    exists i :: 0 <= i < |rows| && rows[i].id == id
  }

  /** The entity rows after an upsert, and the id it gives. */
  function Upserted(rows: seq<Entity>, e: Entity, now: string): (seq<Entity>, Result<string>) {
    if e.id == "" then (rows, Err("empty id"))
    else
      var i := FindEntity(rows, e);
      if i == |rows| then
        if HasEntityId(rows, e.id) then (rows, Err("insert entity"))
        else (rows + [e.(createdAt := now, updatedAt := now)], Ok(e.id))
      else (if e.summary == "" then rows else rows[i := rows[i].(summary := e.summary, updatedAt := now)], Ok(rows[i].id))
  }

  /** Ids are unique, and names are unique within vault and kind up to case. */
  ghost predicate Deduplicated(rows: seq<Entity>) {
    forall i, j | 0 <= i < j < |rows| :: rows[i].id != rows[j].id && !SameEntity(rows[i], rows[j])
  }

  /** The rows of one table are still there, by id and name, in another. */
  ghost predicate Survive(rows: seq<Entity>, after: seq<Entity>) {
    |rows| <= |after| && forall i | 0 <= i < |rows| :: after[i].id == rows[i].id && SameEntity(after[i], rows[i])
  }

  /** An upsert keeps entities deduplicated, and gives the id of the one row that carries the name afterwards. */
  lemma UpsertDeduplicates(rows: seq<Entity>, e: Entity, now: string)
    requires Deduplicated(rows)
    ensures var (after, r) := Upserted(rows, e, now);
      && Deduplicated(after) && |after| <= |rows| + 1
      && (r.Ok? ==> exists i :: 0 <= i < |after| && after[i].id == r.value && SameEntity(after[i], e))
      && Survive(rows, after)
  {
    var (after, r) := Upserted(rows, e, now);
    var i := FindEntity(rows, e);
    if r.Ok? {
      if i < |rows| { assert after[i].id == r.value; } else { assert after[|rows|].id == r.value; }
    }
  }

  /** Upserting the same name again, in any case, adds no row and gives the same id. */
  lemma UpsertIsIdempotent(rows: seq<Entity>, e: Entity, now: string, f: Entity, later: string)
    requires Deduplicated(rows) && Upserted(rows, e, now).1.Ok? && SameEntity(e, f) && f.id != ""
    ensures var (after, r) := Upserted(rows, e, now);
      Upserted(after, f, later).1 == r && |Upserted(after, f, later).0| == |after|
  {
    var (after, r) := Upserted(rows, e, now);
    UpsertDeduplicates(rows, e, now);
    var i :| 0 <= i < |after| && after[i].id == r.value && SameEntity(after[i], e);
    FoundIs(after, f, i);
  }

  /** A deduplicated table has one row for a name, and the lookup finds it. */
  lemma FoundIs(rows: seq<Entity>, f: Entity, i: nat)
    requires Deduplicated(rows) && i < |rows| && SameEntity(rows[i], f)
    ensures FindEntity(rows, f) == i
  {
    forall j | 0 <= j < i ensures !SameEntity(rows[j], f) {
      assert !SameEntity(rows[j], rows[i]);
    }
  }

  /** What an upsert does to the table, column by column. */
  ghost predicate UpsertedRows(rows: seq<Entity>, after: seq<Entity>, e: Entity, now: string, r: Result<string>) {
    if r.Err? then
      after == rows && (e.id == "" || exists i :: 0 <= i < |rows| && rows[i].id == e.id)
    else if |after| > |rows| then
      && after == rows + [Entity(e.id, e.vault, e.name, e.kind, e.summary, now, now)] && r.value == e.id
      && forall i | 0 <= i < |rows| :: !SameName(rows[i], e)
    else
      && |after| == |rows|
      && exists i :: RowUpserted(rows, after, e, now, r.value, i)
  }

  ghost predicate SameName(row: Entity, e: Entity) {
    row.vault == e.vault && row.kind == e.kind && Lower(row.name) == Lower(e.name)
  }

  /** Row i has e's name; it gets e's summary unless that is empty, and nothing else changes. */
  ghost predicate RowUpserted(rows: seq<Entity>, after: seq<Entity>, e: Entity, now: string, id: string, i: int) {
    && 0 <= i < |rows| == |after| && SameName(rows[i], e) && id == rows[i].id
    && after[i] == Entity(rows[i].id, rows[i].vault, rows[i].name, rows[i].kind,
                          if e.summary == "" then rows[i].summary else e.summary, rows[i].createdAt,
                          if e.summary == "" then rows[i].updatedAt else now)
    && forall j | 0 <= j < |rows| && j != i :: after[j] == rows[j]
  }

  /** An upsert inserts, or updates the summary of the row that has the name; a new row starts with both times. */
  lemma UpsertColumns(rows: seq<Entity>, e: Entity, now: string)
    ensures var (after, r) := Upserted(rows, e, now); UpsertedRows(rows, after, e, now, r)
  {
    var (after, r) := Upserted(rows, e, now);
    var i := FindEntity(rows, e);
    if r.Ok? && i < |rows| {
      assert RowUpserted(rows, after, e, now, r.value, i);
    }
  }
}
