/**
 * The SSE broker as a step machine: publishers under the read lock, callers of Subscribe and Unsubscribe under the write
 * lock, each lock, map and channel operation one step, in every interleaving. Channel i belongs to caller i.
 */
module Broker {
  import opened Basics

  /** Publish: called; ranging over the subscribers under the read lock; about to send to the channel picked. */
  datatype Publisher =
    | Idle
    | Calling(evt: nat)
    | Ranging(evt: nat, visited: set<nat>)
    | Sending(evt: nat, visited: set<nat>, ch: nat)

  /** Where the caller is: outside the broker with the channel out of or in the map, or inside Subscribe or Unsubscribe. */
  datatype Caller =
    | Out
    | Subscribing(locked: bool)
    | Added
    | In
    | Unsubscribing(locked: bool)
    | Removed

  /** A channel; sent lists every event ever put in its buffer, dropped those turned away. */
  datatype Channel = Channel(buffer: seq<nat>, capacity: nat, closed: bool, received: seq<nat>, sent: seq<nat>, dropped: set<nat>)

  datatype State = State(publishers: seq<Publisher>, callers: seq<Caller>, channels: seq<Channel>,
                         readers: set<nat>, writer: set<nat>, subscribers: set<nat>, nextEvent: nat, panicked: bool)

  datatype Step =
    | CallPublish(p: nat)
    | LockRead(p: nat)
    | Pick(p: nat, ch: nat)
    | Send(p: nat)
    | UnlockRead(p: nat)
    | CallSubscribe(c: nat)
    | LockSubscribe(c: nat)
    | Add(c: nat)
    | UnlockSubscribe(c: nat)
    | CallUnsubscribe(c: nat)
    | LockUnsubscribe(c: nat)
    | Remove(c: nat)
    | UnlockUnsubscribe(c: nat)
    | Close(c: nat)
    | Receive(c: nat)

  ghost predicate Enabled(s: State, a: Step) {
    match a
    case CallPublish(p) => p < |s.publishers| && s.publishers[p].Idle?
    case LockRead(p) => p < |s.publishers| && s.publishers[p].Calling? && s.writer == {}
    case Pick(p, ch) => p < |s.publishers| && s.publishers[p].Ranging? && ch in s.subscribers - s.publishers[p].visited
    case Send(p) => p < |s.publishers| && s.publishers[p].Sending? && s.publishers[p].ch < |s.channels|
    case UnlockRead(p) => p < |s.publishers| && s.publishers[p].Ranging? && s.subscribers <= s.publishers[p].visited
    case CallSubscribe(c) => c < |s.callers| && s.callers[c].Out?
    case LockSubscribe(c) => c < |s.callers| && s.callers[c] == Subscribing(false) && s.writer == {} && s.readers == {}
    case Add(c) => c < |s.callers| && s.callers[c] == Subscribing(true)
    case UnlockSubscribe(c) => c < |s.callers| && s.callers[c].Added?
    case CallUnsubscribe(c) => c < |s.callers| && s.callers[c].In?
    case LockUnsubscribe(c) => c < |s.callers| && s.callers[c] == Unsubscribing(false) && s.writer == {} && s.readers == {}
    case Remove(c) => c < |s.callers| && s.callers[c] == Unsubscribing(true)
    case UnlockUnsubscribe(c) => c < |s.callers| && s.callers[c].Removed?
    case Close(c) => c < |s.channels| && !s.channels[c].closed
    case Receive(c) => c < |s.channels| && s.channels[c].buffer != []
  }

  /** The non-blocking send: into the buffer when there is room, else dropped. */
  ghost function Offer(ch: Channel, evt: nat): Channel {
    if |ch.buffer| < ch.capacity then ch.(buffer := ch.buffer + [evt], sent := ch.sent + [evt])
    else ch.(dropped := ch.dropped + {evt})
  }

  ghost function Next(s: State, a: Step): State
    requires Enabled(s, a) && |s.callers| == |s.channels|
  {
    match a
    case CallPublish(p) => s.(publishers := s.publishers[p := Calling(s.nextEvent)], nextEvent := s.nextEvent + 1)
    case LockRead(p) => s.(publishers := s.publishers[p := Ranging(s.publishers[p].evt, {})], readers := s.readers + {p})
    case Pick(p, ch) => s.(publishers := s.publishers[p := Sending(s.publishers[p].evt, s.publishers[p].visited, ch)])
    case Send(p) =>
      var Sending(evt, visited, ch) := s.publishers[p];
      if s.channels[ch].closed then s.(panicked := true)
      else s.(publishers := s.publishers[p := Ranging(evt, visited + {ch})],
              channels := s.channels[ch := Offer(s.channels[ch], evt)])
    case UnlockRead(p) => s.(publishers := s.publishers[p := Idle], readers := s.readers - {p})
    case CallSubscribe(c) => s.(callers := s.callers[c := Subscribing(false)])
    case LockSubscribe(c) => s.(callers := s.callers[c := Subscribing(true)], writer := {c})
    case Add(c) => s.(callers := s.callers[c := Added], subscribers := s.subscribers + {c})
    case UnlockSubscribe(c) => s.(callers := s.callers[c := In], writer := {})
    case CallUnsubscribe(c) => s.(callers := s.callers[c := Unsubscribing(false)])
    case LockUnsubscribe(c) => s.(callers := s.callers[c := Unsubscribing(true)], writer := {c})
    case Remove(c) => s.(callers := s.callers[c := Removed], subscribers := s.subscribers - {c})
    case UnlockUnsubscribe(c) => s.(callers := s.callers[c := Out], writer := {})
    case Close(c) => s.(channels := s.channels[c := s.channels[c].(closed := true)])
    case Receive(c) =>
      var ch := s.channels[c];
      s.(channels := s.channels[c := ch.(buffer := ch.buffer[1..], received := ch.received + [ch.buffer[0]])])
  }

  ghost predicate Initial(s: State) {
    && |s.callers| == |s.channels| && s.readers == s.writer == s.subscribers == {} && !s.panicked && s.nextEvent == 0
    && (forall p | 0 <= p < |s.publishers| :: s.publishers[p].Idle?)
    && (forall c | 0 <= c < |s.callers| :: s.callers[c].Out?)
    && (forall c | 0 <= c < |s.channels| :: var ch := s.channels[c];
          !ch.closed && ch.buffer == ch.received == ch.sent == [] && ch.dropped == {})
  }

  /** The caller's side of the contract: close only when Unsubscribe has returned, and never subscribe a closed channel. */
  ghost predicate Disciplined(s: State, a: Step) {
    && (a.Close? ==> a.c < |s.callers| && s.callers[a.c].Out?)
    && (a.CallSubscribe? ==> a.c < |s.channels| && !s.channels[a.c].closed)
  }

  /* ---- the lock invariant ---- */

  ghost predicate InMap(c: Caller) {
    c.Added? || c.In? || c.Unsubscribing?
  }

  ghost predicate HoldsLock(c: Caller) {
    c == Subscribing(true) || c.Added? || c == Unsubscribing(true) || c.Removed?
  }

  ghost predicate LockInv(s: State) {
    && |s.callers| == |s.channels|
    && (forall p | p in s.readers :: p < |s.publishers|)
    && (forall p: nat | p < |s.publishers| :: p in s.readers <==> s.publishers[p].Ranging? || s.publishers[p].Sending?)
    && (forall c: nat | c < |s.callers| :: c in s.writer <==> HoldsLock(s.callers[c]))
    && (forall c, d | c in s.writer && d in s.writer :: c == d < |s.callers|)
    && (s.writer != {} ==> s.readers == {})
    && (forall c | c in s.subscribers :: c < |s.callers|)
    && (forall c: nat | c < |s.callers| :: c in s.subscribers <==> InMap(s.callers[c]))
  }

  /** A picked channel is still in the map. */
  ghost predicate PickedInv(s: State) {
    forall p: nat | p < |s.publishers| && s.publishers[p].Sending? ::
      s.publishers[p].ch in s.subscribers - s.publishers[p].visited
  }

  /** A picked channel is still in the map, no closed channel is, or is on its way in. */
  ghost predicate SendInv(s: State) {
    && !s.panicked && PickedInv(s)
    && (forall c: nat | c < |s.channels| && c < |s.callers| && s.channels[c].closed :: s.callers[c].Out?)
  }

  /* ---- delivery ---- */

  ghost predicate ChannelInv(ch: Channel, nextEvent: nat) {
    && ch.sent == ch.received + ch.buffer && |ch.buffer| <= ch.capacity
    && NoRepeats(ch.sent) && (forall e | e in ch.sent :: e < nextEvent)
  }

  /** An event in flight is in a channel only if its publisher has been there; where it has been, it was sent or dropped. */
  ghost predicate InFlight(s: State, p: nat)
    requires p < |s.publishers|
  {
    var pub := s.publishers[p];
    && (!pub.Idle? ==> pub.evt < s.nextEvent)
    && (pub.Calling? ==> forall c: nat | c < |s.channels| :: pub.evt !in s.channels[c].sent)
    && (pub.Ranging? || pub.Sending? ==>
         && (forall c | c in pub.visited :: c < |s.channels| && (pub.evt in s.channels[c].sent || pub.evt in s.channels[c].dropped))
         && (forall c: nat | c < |s.channels| && c !in pub.visited :: pub.evt !in s.channels[c].sent))
  }

  ghost predicate DeliveryInv(s: State) {
    && (forall c | 0 <= c < |s.channels| :: ChannelInv(s.channels[c], s.nextEvent))
    && (forall p: nat | p < |s.publishers| :: InFlight(s, p))
    && (forall p, r | 0 <= p < r < |s.publishers| && !s.publishers[p].Idle? && !s.publishers[r].Idle? ::
          s.publishers[p].evt != s.publishers[r].evt)
  }

  /** A step of Publish. */
  ghost predicate Publishes(a: Step) {
    a.CallPublish? || a.LockRead? || a.Pick? || a.Send? || a.UnlockRead?
  }

  lemma PublisherKeepsLockInv(s: State, a: Step)
    requires LockInv(s) && Enabled(s, a) && Publishes(a)
    ensures LockInv(Next(s, a))
  {
  }

  /** A step of Subscribe. */
  ghost predicate Joins(a: Step) {
    a.CallSubscribe? || a.LockSubscribe? || a.Add? || a.UnlockSubscribe?
  }

  lemma SubscriberKeepsLockInv(s: State, a: Step)
    requires LockInv(s) && Enabled(s, a) && Joins(a)
    ensures LockInv(Next(s, a))
  {
  }

  lemma OthersKeepLockInv(s: State, a: Step)
    requires LockInv(s) && Enabled(s, a) && !Publishes(a) && !Joins(a)
    ensures LockInv(Next(s, a))
  {
  }

  lemma StepKeepsLockInv(s: State, a: Step)
    requires LockInv(s) && Enabled(s, a)
    ensures LockInv(Next(s, a))
  {
    hide LockInv, Next;
    if Publishes(a) {
      PublisherKeepsLockInv(s, a);
    } else if Joins(a) {
      SubscriberKeepsLockInv(s, a);
    } else {
      OthersKeepLockInv(s, a);
    }
  }

  /** Whatever callers do: the read lock keeps the map as it is while a publisher is about to send. */
  lemma StepKeepsPicked(s: State, a: Step)
    requires LockInv(s) && PickedInv(s) && Enabled(s, a)
    ensures PickedInv(Next(s, a))
  {
  }

  lemma StepKeepsSendInv(s: State, a: Step)
    requires LockInv(s) && SendInv(s) && Enabled(s, a) && Disciplined(s, a)
    ensures SendInv(Next(s, a))
  {
    if a.Send? {
      var ch := s.publishers[a.p].ch;
      assert ch in s.subscribers;
    }
  }

  lemma OfferKeepsChannel(ch: Channel, evt: nat, nextEvent: nat)
    requires ChannelInv(ch, nextEvent) && evt < nextEvent && evt !in ch.sent
    ensures ChannelInv(Offer(ch, evt), nextEvent)
    ensures evt in Offer(ch, evt).sent || evt in Offer(ch, evt).dropped
    ensures forall e | e != evt :: e in Offer(ch, evt).sent <==> e in ch.sent
    ensures ch.dropped <= Offer(ch, evt).dropped && (forall e | e in ch.sent :: e in Offer(ch, evt).sent)
  {
    assert ch.sent + [evt] == ch.received + (ch.buffer + [evt]);
  }

  lemma SendKeepsDelivery(s: State, p: nat)
    requires LockInv(s) && SendInv(s) && DeliveryInv(s) && Enabled(s, Send(p))
    ensures DeliveryInv(Next(s, Send(p)))
  {
    var t, ch, evt := Next(s, Send(p)), s.publishers[p].ch, s.publishers[p].evt;
    assert InFlight(s, p);
    OfferKeepsChannel(s.channels[ch], evt, s.nextEvent);
    forall r: nat | r < |t.publishers| ensures InFlight(t, r) {
      assert InFlight(s, r);
    }
  }

  lemma ReceiveKeepsDelivery(s: State, c: nat)
    requires LockInv(s) && DeliveryInv(s) && Enabled(s, Receive(c))
    ensures DeliveryInv(Next(s, Receive(c)))
  {
    var t, ch := Next(s, Receive(c)), s.channels[c];
    assert ch.received + ch.buffer == ch.received + [ch.buffer[0]] + ch.buffer[1..];
    forall p: nat | p < |t.publishers| ensures InFlight(t, p) {
      assert InFlight(s, p);
    }
  }

  lemma CallKeepsDelivery(s: State, p: nat)
    requires LockInv(s) && DeliveryInv(s) && Enabled(s, CallPublish(p))
    ensures DeliveryInv(Next(s, CallPublish(p)))
  {
    var t := Next(s, CallPublish(p));
    forall r: nat | r < |t.publishers|
      ensures InFlight(t, r) && (r != p && !t.publishers[r].Idle? ==> t.publishers[r].evt != t.publishers[p].evt) {
      assert InFlight(s, r);
    }
  }

  lemma StepKeepsDelivery(s: State, a: Step)
    requires LockInv(s) && SendInv(s) && DeliveryInv(s) && Enabled(s, a)
    ensures DeliveryInv(Next(s, a))
  {
    hide LockInv, SendInv, DeliveryInv, Next;
    match a {
      case Send(p) => SendKeepsDelivery(s, p);
      case Receive(c) => ReceiveKeepsDelivery(s, c);
      case CallPublish(p) => CallKeepsDelivery(s, p);
      case _ => QuietKeepsDelivery(s, a);
    }
  }

  /** Steps that put nothing in a channel and take nothing out. */
  lemma QuietKeepsDelivery(s: State, a: Step)
    requires LockInv(s) && DeliveryInv(s) && Enabled(s, a) && !a.Send? && !a.Receive? && !a.CallPublish?
    ensures DeliveryInv(Next(s, a))
  {
    var t := Next(s, a);
    assert |t.channels| == |s.channels| && forall c | 0 <= c < |s.channels| ::
      t.channels[c] == s.channels[c].(closed := t.channels[c].closed);
    forall p: nat | p < |t.publishers| ensures InFlight(t, p) && (t.publishers[p].Idle? || t.publishers[p].evt == s.publishers[p].evt) {
      assert InFlight(s, p);
    }
  }

  /* ---- whole runs ---- */

  /** Each step is enabled where it is taken. */
  ghost predicate Run(s: State, steps: seq<Step>, t: State)
    decreases |steps|
  {
    if steps == [] then s == t
    else |s.callers| == |s.channels| && Enabled(s, steps[0]) && Run(Next(s, steps[0]), steps[1..], t)
  }

  ghost predicate DisciplinedRun(s: State, steps: seq<Step>)
    requires |s.callers| == |s.channels|
    decreases |steps|
  {
    steps == []
    || (&& Disciplined(s, steps[0]) && Enabled(s, steps[0])
        && |Next(s, steps[0]).callers| == |Next(s, steps[0]).channels| && DisciplinedRun(Next(s, steps[0]), steps[1..]))
  }

  lemma {:induction false} RunKeepsInvariants(s: State, steps: seq<Step>, t: State)
    requires LockInv(s) && SendInv(s) && DeliveryInv(s) && Run(s, steps, t) && DisciplinedRun(s, steps)
    ensures LockInv(t) && SendInv(t) && DeliveryInv(t)
    decreases |steps|
  {
    if steps == [] {
    } else {
      StepKeepsLockInv(s, steps[0]);
      StepKeepsSendInv(s, steps[0]);
      StepKeepsDelivery(s, steps[0]);
      RunKeepsInvariants(Next(s, steps[0]), steps[1..], t);
    }
  }

  /**
   * In every interleaving: if each caller closes its channel only after Unsubscribe has returned and never subscribes a
   * closed one, no send ever reaches a closed channel, no event enters a channel twice, and no buffer overflows.
   */
  lemma NeverSendsToClosed(s: State, steps: seq<Step>, t: State)
    requires Initial(s) && Run(s, steps, t) && DisciplinedRun(s, steps)
    ensures !t.panicked
    ensures forall p | 0 <= p < |t.publishers| && t.publishers[p].Sending? ::
      t.publishers[p].ch < |t.channels| && !t.channels[t.publishers[p].ch].closed
    ensures forall c | 0 <= c < |t.channels| ::
      NoRepeats(t.channels[c].received + t.channels[c].buffer) && |t.channels[c].buffer| <= t.channels[c].capacity
  {
    hide Run, DisciplinedRun;
    RunKeepsInvariants(s, steps, t);
  }

  /** When Publish is about to return, every current subscriber was sent the event or had no room for it. */
  lemma PublishReachesAll(s: State, steps: seq<Step>, t: State, p: nat)
    requires Initial(s) && Run(s, steps, t) && DisciplinedRun(s, steps) && Enabled(t, UnlockRead(p))
    ensures forall c | c in t.subscribers ::
      c < |t.channels| && (t.publishers[p].evt in t.channels[c].sent || t.publishers[p].evt in t.channels[c].dropped)
  {
    hide Run, DisciplinedRun;
    RunKeepsInvariants(s, steps, t);
    assert InFlight(t, p);
  }

  /* ---- what a send does ---- */

  /** A send to an open channel puts the event in its buffer when there is room, else drops it; no other channel changes. */
  lemma SendDelivers(s: State, p: nat)
    requires |s.callers| == |s.channels| && Enabled(s, Send(p)) && !s.channels[s.publishers[p].ch].closed
    ensures var (c, evt, t) := (s.publishers[p].ch, s.publishers[p].evt, Next(s, Send(p)));
      var (before, after) := (s.channels[c], t.channels[c]);
      && |t.channels| == |s.channels| && t.subscribers == s.subscribers
      && (forall d | 0 <= d < |s.channels| && d != c :: t.channels[d] == s.channels[d])
      && after.capacity == before.capacity && !after.closed && after.received == before.received
      && (|before.buffer| < before.capacity ==>
            after.buffer == before.buffer + [evt] && after.sent == before.sent + [evt] && after.dropped == before.dropped)
      && (|before.buffer| >= before.capacity ==>
            after.buffer == before.buffer && after.sent == before.sent && after.dropped == before.dropped + {evt})
  {
  }

  /** In state u publisher p offers e to channel c, whose buffer is full. */
  ghost predicate OffersToFull(u: State, p: nat, c: nat, e: nat) {
    && p < |u.publishers| && u.publishers[p].Sending? && u.publishers[p].ch == c && u.publishers[p].evt == e
    && c < |u.channels| && |u.channels[c].buffer| >= u.channels[c].capacity
  }

  lemma DropIsFull(s: State, a: Step, c: nat, e: nat)
    requires |s.callers| == |s.channels| && Enabled(s, a) && c < |s.channels|
    ensures var t := Next(s, a);
      && |t.channels| == |s.channels| && t.channels[c].capacity == s.channels[c].capacity && t.nextEvent >= s.nextEvent
      && (e in t.channels[c].dropped && e !in s.channels[c].dropped ==> a.Send? && OffersToFull(s, a.p, c, e))
  {
  }

  /** Over any run an event is dropped for a channel only where a step offered it at a full buffer. */
  lemma {:induction false} DroppedOnlyWhenFull(s: State, steps: seq<Step>, t: State, c: nat, e: nat) returns (i: nat, u: State)
    requires Run(s, steps, t) && c < |s.channels| && e !in s.channels[c].dropped
    requires c < |t.channels| && e in t.channels[c].dropped
    ensures i < |steps| && Run(s, steps[..i], u) && steps[i].Send? && OffersToFull(u, steps[i].p, c, e)
    ensures c < |u.channels| && u.channels[c].capacity == t.channels[c].capacity && u.nextEvent <= t.nextEvent
    decreases |steps|
  {
    hide Next, Enabled, OffersToFull;
    var next := Next(s, steps[0]);
    DropIsFull(s, steps[0], c, e);
    if e in next.channels[c].dropped {
      i, u := 0, s;
      RunKeepsCapacity(s, steps, t, c);
    } else {
      i, u := DroppedOnlyWhenFull(next, steps[1..], t, c, e);
      i := i + 1;
      assert steps[..i][0] == steps[0] && steps[..i][1..] == steps[1..][..i - 1];
    }
  }

  lemma {:induction false} RunKeepsCapacity(s: State, steps: seq<Step>, t: State, c: nat)
    requires Run(s, steps, t) && c < |s.channels|
    ensures c < |t.channels| && t.channels[c].capacity == s.channels[c].capacity && s.nextEvent <= t.nextEvent
    decreases |steps|
  {
    hide Next, Enabled;
    if steps == [] {
    } else {
      DropIsFull(s, steps[0], c, 0);
      RunKeepsCapacity(Next(s, steps[0]), steps[1..], t, c);
    }
  }

  lemma {:induction false} DisciplinedPrefix(s: State, steps: seq<Step>, i: nat)
    requires |s.callers| == |s.channels| && DisciplinedRun(s, steps) && i <= |steps|
    ensures DisciplinedRun(s, steps[..i])
    decreases |steps|
  {
    hide Next, Enabled, Disciplined;
    if i > 0 {
      DisciplinedPrefix(Next(s, steps[0]), steps[1..], i - 1);
      assert steps[..i][0] == steps[0] && steps[..i][1..] == steps[1..][..i - 1];
    }
  }

  /** A full buffer holds other events than the one offered. */
  lemma FullBufferNeedsEvents(u: State, p: nat, c: nat, e: nat)
    requires LockInv(u) && SendInv(u) && DeliveryInv(u) && OffersToFull(u, p, c, e)
    ensures u.channels[c].capacity < u.nextEvent
  {
    assert InFlight(u, p);
    assert e !in u.channels[c].sent;
    OneMoreEvent(u.channels[c], e, u.nextEvent);
  }

  lemma OneMoreEvent(ch: Channel, e: nat, nextEvent: nat)
    requires ChannelInv(ch, nextEvent) && e < nextEvent && e !in ch.sent
    ensures |ch.buffer| < nextEvent
  {
    var all := ch.buffer + [e];
    forall x | 0 <= x < |ch.buffer| ensures all[x] in ch.sent && all[x] == ch.sent[|ch.received| + x] {
      assert all[x] == ch.buffer[x];
    }
    DistinctBelow(all, nextEvent);
  }

  /** With no more events published than a channel has room for, none is dropped: each subscriber gets every event. */
  lemma PublishDeliversToRoomy(s: State, steps: seq<Step>, t: State, p: nat, c: nat)
    requires Initial(s) && Run(s, steps, t) && DisciplinedRun(s, steps) && Enabled(t, UnlockRead(p))
    requires c in t.subscribers && c < |t.channels| && t.nextEvent <= t.channels[c].capacity
    ensures t.publishers[p].evt in t.channels[c].sent
  {
    hide Run, DisciplinedRun, SendInv, DeliveryInv, OffersToFull;
    PublishReachesAll(s, steps, t, p);
    var e := t.publishers[p].evt;
    if e in t.channels[c].dropped {
      RunKeepsChannels(s, steps, t);
      var i, u := DroppedOnlyWhenFull(s, steps, t, c, e);
      DisciplinedPrefix(s, steps, i);
      InitialInvariants(s);
      RunKeepsInvariants(s, steps[..i], u);
      FullBufferNeedsEvents(u, steps[i].p, c, e);
      assert false;
    }
  }

  lemma InitialInvariants(s: State)
    requires Initial(s)
    ensures LockInv(s) && SendInv(s) && DeliveryInv(s)
  {
  }

  lemma {:induction false} RunKeepsChannels(s: State, steps: seq<Step>, t: State)
    requires Run(s, steps, t)
    ensures |t.channels| == |s.channels|
    decreases |steps|
  {
    if steps == [] {
    } else {
      RunKeepsChannels(Next(s, steps[0]), steps[1..], t);
    }
  }

  /* ---- a channel closed while subscribed ---- */

  /** Publish p holds the read lock and has yet to come to channel c, which is closed. */
  ghost predicate Stuck(s: State, p: nat, c: nat) {
    && LockInv(s) && PickedInv(s) && p < |s.publishers| && (s.publishers[p].Ranging? || s.publishers[p].Sending?)
    && c in s.subscribers && c !in s.publishers[p].visited && s.channels[c].closed
  }

  /** The read lock keeps c in the map, nothing reopens it, and p cannot return before it has been there. */
  lemma StepKeepsStuck(s: State, a: Step, p: nat, c: nat)
    requires Stuck(s, p, c) && Enabled(s, a)
    ensures a != UnlockRead(p) && Stuck(Next(s, a), p, c)
  {
    assert p in s.readers;
    StepKeepsLockInv(s, a);
    StepKeepsPicked(s, a);
  }

  lemma {:induction false} RunStaysStuck(s: State, steps: seq<Step>, t: State, p: nat, c: nat)
    requires Stuck(s, p, c) && Run(s, steps, t)
    ensures Stuck(t, p, c) && !Enabled(t, UnlockRead(p))
    decreases |steps|
  {
    hide Next, Stuck;
    if steps == [] {
      CannotReturn(s, p, c);
    } else {
      StepKeepsStuck(s, steps[0], p, c);
      RunStaysStuck(Next(s, steps[0]), steps[1..], t, p, c);
    }
  }

  lemma CannotReturn(s: State, p: nat, c: nat)
    requires Stuck(s, p, c)
    ensures !Enabled(s, UnlockRead(p))
  {
  }

  /** Publish p has nothing to do but range on, and when it comes to c it panics. */
  lemma StuckPanics(s: State, p: nat, c: nat) returns (steps: seq<Step>, t: State)
    requires Stuck(s, p, c)
    ensures Run(s, steps, t) && t.panicked && |steps| <= 3 && forall a | a in steps :: a == Send(p) || a == Pick(p, c)
  {
    if s.publishers[p].Sending? {
      steps, t := StuckSends(s, p, c);
    } else {
      steps, t := StuckPicks(s, p, c);
    }
  }

  lemma StuckPicks(s: State, p: nat, c: nat) returns (steps: seq<Step>, t: State)
    requires Stuck(s, p, c) && s.publishers[p].Ranging?
    ensures Run(s, steps, t) && t.panicked && steps == [Pick(p, c), Send(p)]
  {
    hide Run;
    var u := Next(s, Pick(p, c));
    t := Next(u, Send(p));
    assert Enabled(u, Send(p)) && u.publishers[p].ch == c;
    Empty(t);
    Prepend(u, Send(p), [], t);
    assert [Send(p)] + [] == [Send(p)];
    Prepend(s, Pick(p, c), [Send(p)], t);
    steps := [Pick(p, c)] + [Send(p)];
  }

  lemma StuckSends(s: State, p: nat, c: nat) returns (steps: seq<Step>, t: State)
    requires Stuck(s, p, c) && s.publishers[p].Sending?
    ensures Run(s, steps, t) && t.panicked && (steps == [Send(p)] || steps == [Send(p), Pick(p, c), Send(p)])
  {
    hide Run;
    assert s.publishers[p].ch in s.subscribers;
    var u := Next(s, Send(p));
    if u.panicked {
      t := u;
      Empty(t);
      Prepend(s, Send(p), [], t);
      steps := [Send(p)] + [];
    } else {
      StepKeepsStuck(s, Send(p), p, c);
      var rest;
      rest, t := StuckPicks(u, p, c);
      Prepend(s, Send(p), rest, t);
      steps := [Send(p)] + rest;
    }
  }

  lemma Empty(t: State)
    ensures Run(t, [], t)
  {
  }

  lemma {:induction false} RunKeepsLocks(s: State, steps: seq<Step>, t: State)
    requires LockInv(s) && PickedInv(s) && Run(s, steps, t)
    ensures LockInv(t) && PickedInv(t)
    decreases |steps|
  {
    hide LockInv, PickedInv, Next;
    if steps == [] {
    } else {
      StepKeepsLockInv(s, steps[0]);
      StepKeepsPicked(s, steps[0]);
      RunKeepsLocks(Next(s, steps[0]), steps[1..], t);
    }
  }

  /**
   * In every reachable state, however the callers behave: when a subscribed channel is closed, a Publish that takes the read
   * lock never returns, whatever the others do, and its own next steps lead to a panic.
   */
  lemma ClosedSubscriberStopsPublish(s0: State, before: seq<Step>, s: State, p: nat, c: nat, steps: seq<Step>, t: State)
    returns (last: seq<Step>, u: State)
    requires Initial(s0) && Run(s0, before, s)
    requires Enabled(s, LockRead(p)) && c in s.subscribers && c < |s.channels| && s.channels[c].closed
    requires |s.callers| == |s.channels| && Run(Next(s, LockRead(p)), steps, t)
    ensures !Enabled(t, UnlockRead(p))
    ensures Run(t, last, u) && u.panicked && |last| <= 3 && forall a | a in last :: a == Send(p) || a == Pick(p, c)
  {
    hide Run;
    RunKeepsLocks(s0, before, s);
    StepKeepsLockInv(s, LockRead(p));
    StepKeepsPicked(s, LockRead(p));
    RunStaysStuck(Next(s, LockRead(p)), steps, t, p, c);
    last, u := StuckPanics(t, p, c);
  }

  /** No channel that is subscribed is closed, before each step of the run. */
  ghost predicate CleanRun(s: State, steps: seq<Step>)
    requires |s.callers| == |s.channels|
    decreases |steps|
  {
    steps == []
    || (&& (forall c | c in s.subscribers && c < |s.channels| :: !s.channels[c].closed) && Enabled(s, steps[0])
        && |Next(s, steps[0]).callers| == |Next(s, steps[0]).channels| && CleanRun(Next(s, steps[0]), steps[1..]))
  }

  lemma CleanStep(s: State, a: Step)
    requires LockInv(s) && PickedInv(s) && Enabled(s, a) && !s.panicked
    requires forall c | c in s.subscribers && c < |s.channels| :: !s.channels[c].closed
    ensures !Next(s, a).panicked
  {
  }

  /** And that is the only way: while no subscribed channel is closed, nothing panics. */
  lemma {:induction false} CleanRunNeverPanics(s: State, steps: seq<Step>, t: State)
    requires LockInv(s) && PickedInv(s) && !s.panicked && Run(s, steps, t) && CleanRun(s, steps)
    ensures !t.panicked
    decreases |steps|
  {
    hide LockInv, PickedInv, Next;
    if steps == [] {
    } else {
      StepKeepsLockInv(s, steps[0]);
      StepKeepsPicked(s, steps[0]);
      CleanStep(s, steps[0]);
      CleanRunNeverPanics(Next(s, steps[0]), steps[1..], t);
    }
  }

  const ONE_CALLER := State([Idle], [Out], [Channel([], 1, false, [], [], {})], {}, {}, {}, 0, false)

  /** A run that panics: one caller subscribes, closes its channel, and publishes. */
  lemma EarlyClosePanics()
    ensures exists steps, t :: Initial(ONE_CALLER) && Run(ONE_CALLER, steps, t) && t.panicked
  {
    hide Run;
    var last := [Close(0), CallPublish(0), LockRead(0), Pick(0, 0), Send(0)];
    var t := PublishToClosed(ONE_CALLER.(callers := [In], subscribers := {0}));
    SubscribeFirst(last, t);
  }

  lemma SubscribeFirst(rest: seq<Step>, t: State)
    requires Run(ONE_CALLER.(callers := [In], subscribers := {0}), rest, t)
    ensures Run(ONE_CALLER, [CallSubscribe(0)] + ([LockSubscribe(0)] + ([Add(0)] + ([UnlockSubscribe(0)] + rest))), t)
  {
    hide Run;
    var s1 := Next(ONE_CALLER, CallSubscribe(0));
    var s2 := Next(s1, LockSubscribe(0));
    var s3 := Next(s2, Add(0));
    assert Next(s3, UnlockSubscribe(0)) == ONE_CALLER.(callers := [In], subscribers := {0});
    Prepend(s3, UnlockSubscribe(0), rest, t);
    Prepend(s2, Add(0), [UnlockSubscribe(0)] + rest, t);
    Prepend(s1, LockSubscribe(0), [Add(0)] + ([UnlockSubscribe(0)] + rest), t);
    Prepend(ONE_CALLER, CallSubscribe(0), [LockSubscribe(0)] + ([Add(0)] + ([UnlockSubscribe(0)] + rest)), t);
  }

  lemma PublishToClosed(s: State) returns (t: State)
    requires s == State([Idle], [In], [Channel([], 1, false, [], [], {})], {}, {}, {0}, 0, false)
    ensures Run(s, [Close(0), CallPublish(0), LockRead(0), Pick(0, 0), Send(0)], t) && t.panicked
  {
    var s5 := Next(s, Close(0));
    var s6 := Next(s5, CallPublish(0));
    var s7 := Next(s6, LockRead(0));
    var s8 := Next(s7, Pick(0, 0));
    t := Next(s8, Send(0));
    assert Run(t, [], t);
    Prepend(s8, Send(0), [], t);
    Prepend(s7, Pick(0, 0), [Send(0)], t);
    Prepend(s6, LockRead(0), [Pick(0, 0), Send(0)], t);
    Prepend(s5, CallPublish(0), [LockRead(0), Pick(0, 0), Send(0)], t);
    Prepend(s, Close(0), [CallPublish(0), LockRead(0), Pick(0, 0), Send(0)], t);
  }

  lemma Prepend(s: State, a: Step, rest: seq<Step>, t: State)
    requires |s.callers| == |s.channels| && Enabled(s, a) && Run(Next(s, a), rest, t)
    ensures Run(s, [a] + rest, t)
  {
    assert ([a] + rest)[1..] == rest;
  }
}
