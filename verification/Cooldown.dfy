/**
 * The per-session cooldown table with lazy eviction. Clock readings and the interval are integers; a reading is taken
 * once per call, as the code does.
 */
module Cooldown {

  type Table = map<string, int>

  /** The entries that the sweep of a call at `now` keeps. */
  ghost function Kept(last: Table, now: int, interval: int): Table {
    map sid | sid in last && last[sid] >= now - 2 * interval :: last[sid]
  }

  predicate Allowed(last: Table, session: string, now: int, interval: int) {
    !(session in last && now - last[session] < interval)
  }

  ghost function AcquiredTable(last: Table, session: string, now: int, interval: int): Table {
    if interval <= 0 then last[session := now]
    else
      var kept := Kept(last, now, interval);
      if Allowed(kept, session, now, interval) then kept[session := now] else kept
  }

  ghost predicate Granted(last: Table, session: string, now: int, interval: int) {
    interval <= 0 || Allowed(Kept(last, now, interval), session, now, interval)
  }

  class CooldownTracker {
    const interval: int
    var last: Table

    constructor (interval: int)
      ensures this.interval == interval && last == map[]
    {
      this.interval := interval;
      last := map[];
    }

    method TryAcquire(session: string, now: int) returns (granted: bool)
      modifies this
      ensures last == AcquiredTable(old(last), session, now, interval)
      ensures granted <==> Granted(old(last), session, now, interval)
      ensures granted ==> session in last && last[session] == now
      ensures forall sid | sid in last && (sid != session || !granted) :: sid in old(last) && last[sid] == old(last)[sid]
      ensures forall sid | sid in old(last) && (sid != session || !granted) ::
        sid in last <==> interval <= 0 || old(last)[sid] >= now - 2 * interval
    {
      if interval <= 0 {
        last := last[session := now];
        return true;
      }
      var evictBefore := now - 2 * interval;
      var todo := last.Keys;
      ghost var before := last;
      while todo != {}
        invariant todo <= before.Keys
        invariant forall sid :: sid in last <==> sid in before && (sid in todo || before[sid] >= evictBefore)
        invariant forall sid | sid in last :: last[sid] == before[sid]
        decreases |todo|
      {
        var sid :| sid in todo;
        if last[sid] < evictBefore {
          last := last - {sid};
        }
        todo := todo - {sid};
      }
      assert last == Kept(before, now, interval);
      if session in last && now - last[session] < interval {
        return false;
      }
      last := last[session := now];
      return true;
    }

    method ResetCooldown(session: string)
      modifies this
      ensures last == old(last) - {session}
    {
      last := last - {session};
    }
  }

  /* ---- runs ---- */

  datatype Call = Acquire(session: string, now: int) | Reset(session: string)

  ghost function AfterCall(last: Table, c: Call, interval: int): Table {
    match c
    case Acquire(s, now) => AcquiredTable(last, s, now, interval)
    case Reset(s) => last - {s}
  }

  /** The tracker's answers, call by call; a reset answers true. */
  ghost function Verdicts(last: Table, calls: seq<Call>, interval: int): (r: seq<bool>)
    ensures |r| == |calls|
    decreases |calls|
  {
    if calls == [] then []
    else
      var verdict := calls[0].Reset? || Granted(last, calls[0].session, calls[0].now, interval);
      [verdict] + Verdicts(AfterCall(last, calls[0], interval), calls[1..], interval)
  }

  /** The reference: a table that never forgets an entry. */
  ghost function KeepAll(last: Table, c: Call, interval: int): Table {
    match c
    case Acquire(s, now) => if interval <= 0 || Allowed(last, s, now, interval) then last[s := now] else last
    case Reset(s) => last - {s}
  }

  ghost function KeepAllVerdicts(last: Table, calls: seq<Call>, interval: int): (r: seq<bool>)
    ensures |r| == |calls|
    decreases |calls|
  {
    if calls == [] then []
    else
      var verdict := calls[0].Reset? || interval <= 0 || Allowed(last, calls[0].session, calls[0].now, interval);
      [verdict] + KeepAllVerdicts(KeepAll(last, calls[0], interval), calls[1..], interval)
  }

  /** Clock readings never go back, starting from `now`. */
  ghost predicate ForwardFrom(now: int, calls: seq<Call>)
    decreases |calls|
  {
    calls == [] || if calls[0].Acquire? then now <= calls[0].now && ForwardFrom(calls[0].now, calls[1..]) else ForwardFrom(now, calls[1..])
  }

  /** The lazy table is the full one less entries that have long run out by `now`. */
  ghost predicate Refines(lazy: Table, full: Table, now: int, interval: int) {
    && (forall sid | sid in lazy :: sid in full && lazy[sid] == full[sid])
    && (forall sid | sid in full && sid !in lazy :: full[sid] < now - 2 * interval)
  }

  lemma {:induction false} LazyRefinesFull(lazy: Table, full: Table, now: int, calls: seq<Call>, interval: int)
    requires ForwardFrom(now, calls)
    requires if interval > 0 then Refines(lazy, full, now, interval) else lazy == full
    ensures Verdicts(lazy, calls, interval) == KeepAllVerdicts(full, calls, interval)
    decreases |calls|
  {
    if calls == [] {
    } else {
      var c := calls[0];
      LazyRefinesFull(AfterCall(lazy, c, interval), KeepAll(full, c, interval), if c.Acquire? then c.now else now, calls[1..], interval);
    }
  }

  /** Lazy eviction never shows: over any run under a clock that never goes back, every verdict is that of the full table. */
  lemma EvictionIsInvisible(now: int, calls: seq<Call>, interval: int)
    requires ForwardFrom(now, calls)
    ensures Verdicts(map[], calls, interval) == KeepAllVerdicts(map[], calls, interval)
  {
    LazyRefinesFull(map[], map[], now, calls, interval);
  }

  lemma {:induction false} ForwardMonotone(now: int, calls: seq<Call>, i: nat)
    requires ForwardFrom(now, calls) && i < |calls| && calls[i].Acquire?
    ensures now <= calls[i].now && forall j | 0 <= j <= i && calls[j].Acquire? :: calls[j].now <= calls[i].now
    decreases |calls|
  {
    if i == 0 {
    } else {
      ForwardMonotone(if calls[0].Acquire? then calls[0].now else now, calls[1..], i - 1);
      assert forall j | 0 < j <= i :: calls[j] == calls[1..][j - 1];
    }
  }

  /** Call i was granted, no reset of its session came after it, and it is less than the interval before call k. */
  ghost predicate HoldsBack(calls: seq<Call>, verdicts: seq<bool>, i: int, k: int, interval: int) {
    && 0 <= i < k < |calls| == |verdicts|
    && calls[i].Acquire? && calls[k].Acquire? && calls[i].session == calls[k].session && verdicts[i]
    && (forall j | i < j < k :: calls[j] != Reset(calls[i].session))
    && calls[k].now - calls[i].now < interval
  }

  /** The session's entry in the table at the start refuses call k. */
  ghost predicate HeldFromStart(full: Table, calls: seq<Call>, k: nat, interval: int) {
    && k < |calls| && calls[k].Acquire? && calls[k].session in full
    && (forall j | 0 <= j < k :: calls[j] != Reset(calls[k].session))
    && calls[k].now - full[calls[k].session] < interval
  }

  lemma {:induction false} FullVerdict(full: Table, now: int, calls: seq<Call>, k: nat, interval: int)
    requires interval > 0 && ForwardFrom(now, calls) && k < |calls| && calls[k].Acquire?
    ensures var verdicts := KeepAllVerdicts(full, calls, interval);
      !verdicts[k] <==> HeldFromStart(full, calls, k, interval) || Blocked(calls, verdicts, k, interval)
    decreases |calls|
  {
    if k > 0 {
      var c, rest := calls[0], calls[1..];
      var table, later := KeepAll(full, c, interval), if c.Acquire? then c.now else now;
      var verdicts, next := KeepAllVerdicts(full, calls, interval), KeepAllVerdicts(table, rest, interval);
      FullVerdict(table, later, rest, k - 1, interval);
      ForwardMonotone(later, rest, k - 1);
      BlockedLater(calls, verdicts, k, interval);
      hide Blocked;
      assert forall j | 0 <= j < k - 1 :: rest[j] == calls[j + 1];
      assert HeldFromStart(table, rest, k - 1, interval)
        <==> (HeldFromStart(full, calls, k, interval) || HoldsBack(calls, verdicts, 0, k, interval));
    }
  }

  lemma HoldsLater(calls: seq<Call>, verdicts: seq<bool>, i: nat, k: nat, interval: int)
    requires 0 < i < k < |calls| == |verdicts|
    ensures HoldsBack(calls, verdicts, i, k, interval) <==> HoldsBack(calls[1..], verdicts[1..], i - 1, k - 1, interval)
  {
    var rest := calls[1..];
    assert forall j | 0 < j < |calls| :: rest[j - 1] == calls[j];
    assert forall j | 0 <= j < |rest| :: rest[j] == calls[j + 1];
  }

  /** Some earlier call holds call k back. */
  ghost predicate Blocked(calls: seq<Call>, verdicts: seq<bool>, k: int, interval: int) {
    exists i :: HoldsBack(calls, verdicts, i, k, interval)
  }

  lemma BlockedLater(calls: seq<Call>, verdicts: seq<bool>, k: nat, interval: int)
    requires 0 < k < |calls| == |verdicts|
    ensures Blocked(calls, verdicts, k, interval)
      <==> HoldsBack(calls, verdicts, 0, k, interval) || Blocked(calls[1..], verdicts[1..], k - 1, interval)
  {
    var m := k - 1;
    if i :| HoldsBack(calls, verdicts, i, k, interval) {
      if i > 0 {
        HoldsLater(calls, verdicts, i, k, interval);
        assert HoldsBack(calls[1..], verdicts[1..], i - 1, k - 1, interval);
      }
    }
    if i :| HoldsBack(calls[1..], verdicts[1..], i, m, interval) {
      HoldsLater(calls, verdicts, i + 1, k, interval);
      assert HoldsBack(calls, verdicts, i + 1, k, interval);
    }
  }

  /**
   * Over any run under a clock that never goes back a call is refused if and only if one of the same session was granted less
   * than the interval before, with no reset of the session in between; without an interval none is.
   */
  lemma RefusedIff(now: int, calls: seq<Call>, k: nat, interval: int)
    requires ForwardFrom(now, calls) && k < |calls| && calls[k].Acquire?
    ensures var verdicts := Verdicts(map[], calls, interval);
      !verdicts[k] <==> interval > 0 && Blocked(calls, verdicts, k, interval)
  {
    EvictionIsInvisible(now, calls, interval);
    if interval > 0 { FullVerdict(map[], now, calls, k, interval); } else { NoIntervalNoRefusal(map[], calls, interval); }
  }

  lemma {:induction false} NoIntervalNoRefusal(full: Table, calls: seq<Call>, interval: int)
    requires interval <= 0
    ensures forall k | 0 <= k < |calls| :: KeepAllVerdicts(full, calls, interval)[k]
    decreases |calls|
  {
    if calls == [] {
    } else {
      NoIntervalNoRefusal(KeepAll(full, calls[0], interval), calls[1..], interval);
    }
  }

  /** Two grants to one session without a reset of it in between are at least the interval apart. */
  lemma LazyGrantsAreSpaced(now: int, calls: seq<Call>, i: nat, k: nat, interval: int)
    requires interval > 0 && ForwardFrom(now, calls) && i < k < |calls|
    requires calls[i].Acquire? && calls[k].Acquire? && calls[i].session == calls[k].session
    requires forall j | i < j < k :: calls[j] != Reset(calls[i].session)
    requires Verdicts(map[], calls, interval)[i] && Verdicts(map[], calls, interval)[k]
    ensures calls[k].now - calls[i].now >= interval
  {
    RefusedIff(now, calls, k, interval);
    assert !HoldsBack(calls, Verdicts(map[], calls, interval), i, k, interval);
  }
}
