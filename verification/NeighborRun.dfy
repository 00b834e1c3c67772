/** The neighbour cache as a state machine over its public operations, and what holds in every run. */
module NeighborRun {
  import opened Options
  import opened Neighbor
  import opened NeighborInvariant
  import opened NeighborGc

  /** The entries, and the history of every address that has one. */
  datatype Cache = Cache(entries: Table, hist: map<Addr, History>)

  const EMPTY := Cache(map[], map[])

  function EntryOf(entries: Table, a: Addr): Option<Entry> {
    if a in entries then Some(entries[a]) else None
  }

  function HistoryOf(hist: map<Addr, History>, a: Addr): History {
    if a in hist then hist[a] else NO_HISTORY
  }

  function SlotOf(c: Cache, a: Addr): Slot {
    Slot(EntryOf(c.entries, a), HistoryOf(c.hist, a))
  }

  /** One call, with its clock reading and its result. A maintenance pass also carries the REACHABLE
      lifetime in force, which is the override when one is set. */
  datatype Event =
    | Find(a: Addr, now: real, found: Option<Mac>)
    | Reply(a: Addr, mac: Mac, now: real)
    | SetPermanent(a: Addr, mac: Mac, now: real)
    | Remove(a: Addr, existed: bool)
    | Flush(count: nat)
    | Confirm(a: Addr, now: real)
    | Enqueue(a: Addr, p: Packet)
    | Maintain(now: real, reachable: real)

  /** Only the slot of a changes, to s. */
  ghost predicate Replaces(c: Cache, c': Cache, a: Addr, s: Slot) {
    SlotOf(c', a) == s && forall b :: b != a ==> SlotOf(c', b) == SlotOf(c, b)
  }

  /** Every slot takes its timer step. */
  ghost predicate Ticks(k: Knobs, c: Cache, mid: Cache, now: real, reachable: real) {
    forall a :: SlotOf(mid, a) == TickStep(k, SlotOf(c, a), now, reachable)
  }

  /** The collector then removes entries, and nothing else happens. */
  ghost predicate Collects(k: Knobs, mid: Cache, c': Cache, now: real) {
    && Collected(k, mid.entries, c'.entries, now)
    && forall a :: SlotOf(c', a) ==
         if a in mid.entries && a !in c'.entries then GoneStep(SlotOf(mid, a)) else SlotOf(mid, a)
  }

  ghost predicate Next(k: Knobs, c: Cache, ev: Event, c': Cache)
    requires k.Valid()
  {
    match ev
    case Find(a, now, found) =>
      Replaces(c, c', a, FindStep(SlotOf(c, a), now).0) && found == FindStep(SlotOf(c, a), now).1
    case Reply(a, mac, now) => Replaces(c, c', a, ReplyStep(SlotOf(c, a), mac, now, k.flushHook))
    case SetPermanent(a, mac, now) => Replaces(c, c', a, PermanentStep(SlotOf(c, a), mac, now))
    case Remove(a, existed) => Replaces(c, c', a, GoneStep(SlotOf(c, a))) && existed == (a in c.entries)
    case Flush(count) => (forall a :: SlotOf(c', a) == GoneStep(SlotOf(c, a))) && count == |c.entries|
    case Confirm(a, now) => Replaces(c, c', a, ConfirmStep(SlotOf(c, a), now))
    case Enqueue(a, p) => Replaces(c, c', a, EnqueueStep(SlotOf(c, a), p, k.queueLen))
    case Maintain(now, reachable) => exists mid :: Ticks(k, c, mid, now, reachable) && Collects(k, mid, c', now)
  }

  /** cs are the states around the events evs, from any first state. */
  ghost predicate Steps(k: Knobs, cs: seq<Cache>, evs: seq<Event>)
    requires k.Valid()
  {
    |cs| == |evs| + 1 && forall i :: 0 <= i < |evs| ==> Next(k, cs[i], evs[i], cs[i + 1])
  }

  /** A run of a new cache. */
  ghost predicate Run(k: Knobs, cs: seq<Cache>, evs: seq<Event>)
    requires k.Valid()
  {
    Steps(k, cs, evs) && cs[0] == EMPTY
  }

  // ----- the slot invariant holds throughout

  ghost predicate CacheInv(k: Knobs, c: Cache) {
    forall a :: SlotInv(k, SlotOf(c, a))
  }

  lemma GoneKeeps(k: Knobs, s: Slot)
    requires SlotInv(k, s)
    ensures SlotInv(k, GoneStep(s))
  {
    GoneConserved(s);
  }

  lemma MaintainKeeps(k: Knobs, c: Cache, now: real, reachable: real, c': Cache)
    requires k.Valid() && CacheInv(k, c) && Next(k, c, Maintain(now, reachable), c')
    ensures CacheInv(k, c')
  {
    var mid :| Ticks(k, c, mid, now, reachable) && Collects(k, mid, c', now);
    forall a
      ensures SlotInv(k, SlotOf(c', a))
    {
      TickKeeps(k, SlotOf(c, a), now, reachable);
      GoneKeeps(k, SlotOf(mid, a));
    }
  }

  lemma NextKeeps(k: Knobs, c: Cache, ev: Event, c': Cache)
    requires k.Valid() && CacheInv(k, c) && Next(k, c, ev, c')
    ensures CacheInv(k, c')
  {
    match ev
    case Find(a, now, _) => FindKeeps(k, SlotOf(c, a), now);
    case Reply(a, mac, now) => ReplyKeeps(k, SlotOf(c, a), mac, now);
    case SetPermanent(a, mac, now) => PermanentKeeps(k, SlotOf(c, a), mac, now);
    case Remove(a, _) => GoneKeeps(k, SlotOf(c, a));
    case Flush(_) =>
      forall a
        ensures SlotInv(k, SlotOf(c', a))
      {
        GoneKeeps(k, SlotOf(c, a));
      }
    case Confirm(a, now) =>
      assert SlotInv(k, SlotOf(c, a));
    case Enqueue(a, p) => EnqueueKeeps(k, SlotOf(c, a), p);
    case Maintain(now, reachable) => MaintainKeeps(k, c, now, reachable, c');
  }

  lemma {:induction false} RunKeeps(k: Knobs, cs: seq<Cache>, evs: seq<Event>, i: nat)
    requires k.Valid() && Run(k, cs, evs) && i < |cs|
    ensures CacheInv(k, cs[i])
  {
    if i == 0 {
    } else {
      RunKeeps(k, cs, evs, i - 1);
      NextKeeps(k, cs[i - 1], evs[i - 1], cs[i]);
    }
  }

  /** In every reachable state, for every address: while an address is being resolved or probed, the
      probe counter is the number of solicits of that episode, within its budget and never closer than
      the retransmit timer; a FAILED entry used its whole budget; queues stay bounded; every accepted
      packet is queued or has one fate, and the flush callbacks were exactly the flushed fates. */
  lemma RunInvariant(k: Knobs, cs: seq<Cache>, evs: seq<Event>, i: nat, a: Addr)
    requires k.Valid() && Run(k, cs, evs) && i < |cs|
    ensures var s := SlotOf(cs[i], a); var h := s.hist;
      && |h.fates| <= |h.accepted| && QueueOf(s) == h.accepted[|h.fates|..] && |QueueOf(s)| <= k.queueLen
      && h.sent == Delivered(h.accepted, h.fates)
      && (s.entry.Some? ==> var e := s.entry.value;
            && (e.state == INCOMPLETE ==> e.mac.None?)
            && (e.state != INCOMPLETE && e.state != FAILED ==> e.mac.Some?)
            && (e.state == INCOMPLETE || e.state == PROBE || e.state == FAILED ==>
                  && h.episode <= |h.solicits| && Spaced(EpisodeOf(h), k.retrans) && AllTo(EpisodeOf(h), e.mac))
            && (e.state == INCOMPLETE ==> |EpisodeOf(h)| == e.probes <= k.maxMulticast)
            && (e.state == PROBE ==> |EpisodeOf(h)| == e.probes <= k.maxUnicast)
            && (e.state == FAILED ==> |EpisodeOf(h)| == if e.mac.None? then k.maxMulticast else k.maxUnicast))
  {
    RunKeeps(k, cs, evs, i);
    assert SlotInv(k, SlotOf(cs[i], a));
  }

  /** In every reachable state and per address, the flushed packets are accepted ones in the order of
      their acceptance, each flushed once: the j-th flush is the packet accepted at index[j]. */
  lemma RunFlushesInOrder(k: Knobs, cs: seq<Cache>, evs: seq<Event>, i: nat, a: Addr) returns (index: seq<nat>)
    requires k.Valid() && Run(k, cs, evs) && i < |cs|
    ensures var h := HistoryOf(cs[i].hist, a); InOrder(h.accepted, h.fates, h.sent, index)
  {
    RunKeeps(k, cs, evs, i);
    assert SlotInv(k, SlotOf(cs[i], a));
    index := FlushedInOrder(SlotOf(cs[i], a));
  }

  // ----- which MAC a lookup returns

  /** What the outside has said about an address: the MAC last learned or configured, and whether an
      operator configured it. A reply does not override a configured neighbour; removing the entry
      withdraws both. */
  datatype Binding = Binding(pinned: bool, mac: Option<Mac>)

  function Told(evs: seq<Event>, a: Addr): Binding {
    if evs == [] then Binding(false, None) else ToldBy(Told(evs[..|evs| - 1], a), evs[|evs| - 1], a)
  }

  function ToldBy(before: Binding, ev: Event, a: Addr): Binding {
    match ev
    case Reply(b, mac, _) => if b == a && !before.pinned then Binding(false, Some(mac)) else before
    case SetPermanent(b, mac, _) => if b == a then Binding(true, Some(mac)) else before
    case Remove(b, _) => if b == a then Binding(false, None) else before
    case Flush(_) => Binding(false, None)
    case _ => before
  }

  /** An entry holds no MAC but the one told, and is PERMANENT exactly when it was configured. */
  ghost predicate Agrees(s: Slot, b: Binding) {
    && (b.pinned <==> s.entry.Some? && s.entry.value.state == PERMANENT)
    && (s.entry.Some? && s.entry.value.mac.Some? ==> b.mac == s.entry.value.mac)
  }

  lemma TickAgrees(k: Knobs, s: Slot, now: real, reachable: real, b: Binding)
    requires Agrees(s, b)
    ensures Agrees(TickStep(k, s, now, reachable), b)
  {
  }

  lemma MaintainAgrees(k: Knobs, c: Cache, now: real, reachable: real, c': Cache, a: Addr, b: Binding)
    requires k.Valid() && Next(k, c, Maintain(now, reachable), c') && Agrees(SlotOf(c, a), b)
    ensures Agrees(SlotOf(c', a), b)
  {
    var mid :| Ticks(k, c, mid, now, reachable) && Collects(k, mid, c', now);
    TickAgrees(k, SlotOf(c, a), now, reachable, b);
    ProtectedSurvive(k, mid.entries, c'.entries, now);
  }

  lemma NextAgrees(k: Knobs, c: Cache, ev: Event, c': Cache, a: Addr, b: Binding)
    requires k.Valid() && Next(k, c, ev, c') && Agrees(SlotOf(c, a), b)
    ensures Agrees(SlotOf(c', a), ToldBy(b, ev, a))
  {
    if ev.Maintain? {
      MaintainAgrees(k, c, ev.now, ev.reachable, c', a, b);
    }
  }

  lemma ToldNext(evs: seq<Event>, i: nat, a: Addr)
    requires i < |evs|
    ensures Told(evs[..i + 1], a) == ToldBy(Told(evs[..i], a), evs[i], a)
  {
    assert evs[..i + 1][..i] == evs[..i];
  }

  lemma {:induction false} RunAgrees(k: Knobs, cs: seq<Cache>, evs: seq<Event>, i: nat, a: Addr)
    requires k.Valid() && Run(k, cs, evs) && i < |cs|
    ensures Agrees(SlotOf(cs[i], a), Told(evs[..i], a))
  {
    if i == 0 {
    } else {
      RunAgrees(k, cs, evs, i - 1, a);
      ToldNext(evs, i - 1, a);
      NextAgrees(k, cs[i - 1], evs[i - 1], cs[i], a, Told(evs[..i - 1], a));
    }
  }

  /** In every run, a MAC returned by a lookup is the one most recently told for that address. */
  lemma LookupReturnsTold(k: Knobs, cs: seq<Cache>, evs: seq<Event>, i: nat)
    requires k.Valid() && Run(k, cs, evs) && i < |evs|
    requires evs[i].Find? && evs[i].found.Some?
    ensures Told(evs[..i], evs[i].a).mac == evs[i].found
  {
    RunAgrees(k, cs, evs, i, evs[i].a);
    assert Next(k, cs[i], evs[i], cs[i + 1]);
  }

  /** Configured entries are left alone by lookups, replies, confirmations, timers and the collector:
      only the time of use and the queue may change. */
  lemma PermanentStays(k: Knobs, c: Cache, ev: Event, c': Cache, a: Addr)
    requires k.Valid() && Next(k, c, ev, c')
    requires a in c.entries && c.entries[a].state == PERMANENT
    requires !(ev.SetPermanent? && ev.a == a) && !(ev.Remove? && ev.a == a) && !ev.Flush?
    ensures a in c'.entries
    ensures c'.entries[a].(usedAt := c.entries[a].usedAt, queue := c.entries[a].queue) == c.entries[a]
  {
    assert SlotOf(c, a).entry == Some(c.entries[a]);
    if ev.Maintain? {
      MaintainLeavesPermanent(k, c, ev.now, ev.reachable, c', a);
    } else {
      assert SlotOf(c', a).entry == EntryOf(c'.entries, a);
    }
  }

  lemma MaintainLeavesPermanent(k: Knobs, c: Cache, now: real, reachable: real, c': Cache, a: Addr)
    requires k.Valid() && Next(k, c, Maintain(now, reachable), c')
    requires a in c.entries && c.entries[a].state == PERMANENT
    ensures a in c'.entries && c'.entries[a] == c.entries[a]
  {
    var mid :| Ticks(k, c, mid, now, reachable) && Collects(k, mid, c', now);
    assert SlotOf(c, a).entry == Some(c.entries[a]);
    assert SlotOf(mid, a) == SlotOf(c, a) && SlotOf(mid, a).entry == EntryOf(mid.entries, a);
    ProtectedSurvive(k, mid.entries, c'.entries, now);
  }

  // ----- the documented state diagram

  /** The transitions of the diagram, with what triggers each for the entry e of a. */
  predicate Diagram(k: Knobs, e: Entry, ev: Event, a: Addr, to: State) {
    match ev
    case Find(b, _, _) => b == a && e.state == STALE && to == DELAY
    case Reply(b, _, _) => b == a && (e.state == INCOMPLETE || e.state == PROBE) && to == REACHABLE
    case Confirm(b, _) => b == a && (e.state == STALE || e.state == DELAY || e.state == PROBE) && to == REACHABLE
    case Maintain(now, reachable) =>
      || (e.state == REACHABLE && to == STALE && now - e.changedAt >= reachable)
      || (e.state == DELAY && to == PROBE && now - e.changedAt >= k.delay)
      || (e.state == INCOMPLETE && to == FAILED && e.probes >= k.maxMulticast)
      || (e.state == PROBE && to == FAILED && e.probes >= k.maxUnicast)
    case _ => false
  }

  /** The transitions that only the operations themselves describe: a lookup starts a FAILED address
      over, a reply is believed in every dynamic state, and an operator may configure any address. */
  predicate BeyondDiagram(e: Entry, ev: Event, a: Addr, to: State) {
    match ev
    case Find(b, _, _) => b == a && e.state == FAILED && to == INCOMPLETE
    case Reply(b, _, _) =>
      && b == a && to == REACHABLE
      && (e.state == REACHABLE || e.state == STALE || e.state == DELAY || e.state == FAILED)
    case SetPermanent(b, _, _) => b == a && to == PERMANENT
    case _ => false
  }

  predicate Edge(k: Knobs, e: Entry, ev: Event, a: Addr, to: State) {
    Diagram(k, e, ev, a, to) || BeyondDiagram(e, ev, a, to)
  }

  /** e' is e after one of these transitions if the event offers one, and in the same state otherwise. */
  ghost predicate TakesEdge(k: Knobs, e: Entry, ev: Event, a: Addr, e': Entry) {
    && (e'.state != e.state ==> Edge(k, e, ev, a, e'.state))
    && (forall to :: Edge(k, e, ev, a, to) ==> e'.state == to && e'.changedAt == ev.now)
  }

  lemma TickTakesEdge(k: Knobs, s: Slot, now: real, reachable: real, a: Addr)
    requires s.entry.Some?
    ensures TickStep(k, s, now, reachable).entry.Some?
    ensures TakesEdge(k, s.entry.value, Maintain(now, reachable), a, TickStep(k, s, now, reachable).entry.value)
  {
  }

  /** An entry that stays in the cache takes a transition of the diagram, or one of the further ones,
      when the event offers it, changes state in no other way, and is stamped with the time. */
  lemma FollowsDiagram(k: Knobs, c: Cache, ev: Event, c': Cache, a: Addr)
    requires k.Valid() && Next(k, c, ev, c') && a in c.entries && a in c'.entries
    ensures TakesEdge(k, c.entries[a], ev, a, c'.entries[a])
  {
    assert SlotOf(c, a).entry == Some(c.entries[a]) && SlotOf(c', a).entry == Some(c'.entries[a]);
    if ev.Maintain? {
      MaintainTakesEdge(k, c, ev.now, ev.reachable, c', a);
    }
  }

  lemma MaintainTakesEdge(k: Knobs, c: Cache, now: real, reachable: real, c': Cache, a: Addr)
    requires k.Valid() && Next(k, c, Maintain(now, reachable), c') && a in c.entries && a in c'.entries
    ensures TakesEdge(k, c.entries[a], Maintain(now, reachable), a, c'.entries[a])
  {
    var mid :| Ticks(k, c, mid, now, reachable) && Collects(k, mid, c', now);
    assert SlotOf(c, a).entry == Some(c.entries[a]) && SlotOf(c', a).entry == Some(c'.entries[a]);
    assert SlotOf(c', a) == SlotOf(mid, a);
    TickTakesEdge(k, SlotOf(c, a), now, reachable, a);
  }

  /** A pass gives an episode up exactly when its budget is used, whatever the age of its last solicit. */
  lemma GivesUpIff(k: Knobs, c: Cache, now: real, reachable: real, c': Cache, a: Addr)
    requires k.Valid() && Next(k, c, Maintain(now, reachable), c') && a in c.entries && a in c'.entries
    requires c.entries[a].state == INCOMPLETE || c.entries[a].state == PROBE
    ensures c'.entries[a].state == FAILED <==> c.entries[a].probes >= Budget(k, c.entries[a].state)
  {
    MaintainTakesEdge(k, c, now, reachable, c', a);
    assert Edge(k, c.entries[a], Maintain(now, reachable), a, FAILED) <==>
      c.entries[a].probes >= Budget(k, c.entries[a].state);
  }

  /** With a budget of one, an address looked up and found missing is FAILED at the same instant. */
  lemma FailsAtOnce(k: Knobs, reachable: real) returns (cs: seq<Cache>, evs: seq<Event>)
    requires k.Valid() && k.maxMulticast == 1 && k.thresh1 >= 1
    ensures Run(k, cs, evs) && evs == [Find(1, 0.0, None), Maintain(0.0, reachable)]
    ensures cs[2].entries == map[1 := Entry(None, FAILED, 0.0, 1, [], 0.0)]
  {
    var h := FirstAsked(NO_HISTORY, 0.0, None);
    var c1 := Cache(map[1 := Entry(None, INCOMPLETE, 0.0, 1, [], 0.0)], map[1 := h]);
    var c2 := Cache(map[1 := Entry(None, FAILED, 0.0, 1, [], 0.0)], map[1 := h]);
    evs := [Find(1, 0.0, None), Maintain(0.0, reachable)];
    cs := [EMPTY, c1, c2];
    assert Next(k, EMPTY, evs[0], c1);
    assert Repeat(Dropped(Reason.Unresolved), 0) == [];
    assert TickStep(k, SlotOf(c1, 1), 0.0, reachable) == SlotOf(c2, 1);
    assert Ticks(k, c1, c2, 0.0, reachable) && Collects(k, c2, c2, 0.0);
    assert Next(k, c1, evs[1], c2);
  }

  /** The time of use is that of the latest lookup, or of the entry's creation. */
  lemma UseIsLookup(k: Knobs, c: Cache, ev: Event, c': Cache, a: Addr)
    requires k.Valid() && Next(k, c, ev, c') && a in c'.entries
    ensures var used := (ev.Find? || ev.SetPermanent?) && ev.a == a;
      && (a in c.entries && !used ==> c'.entries[a].usedAt == c.entries[a].usedAt)
      && (a !in c.entries || used ==>
            (ev.Find? || ev.SetPermanent? || ev.Reply?) && ev.a == a && c'.entries[a].usedAt == ev.now)
  {
    assert SlotOf(c', a).entry == Some(c'.entries[a]) && SlotOf(c, a).entry == EntryOf(c.entries, a);
    if ev.Maintain? {
      PassIsNoUse(k, c, ev.now, ev.reachable, c', a);
    }
  }

  lemma PassIsNoUse(k: Knobs, c: Cache, now: real, reachable: real, c': Cache, a: Addr)
    requires k.Valid() && Next(k, c, Maintain(now, reachable), c') && a in c'.entries
    ensures a in c.entries && c'.entries[a].usedAt == c.entries[a].usedAt
  {
    var mid :| Ticks(k, c, mid, now, reachable) && Collects(k, mid, c', now);
    assert SlotOf(c', a).entry == Some(c'.entries[a]) && SlotOf(c, a).entry == EntryOf(c.entries, a);
    assert SlotOf(c', a) == SlotOf(mid, a) == TickStep(k, SlotOf(c, a), now, reachable);
    TickIsNoUse(k, SlotOf(c, a), now, reachable);
  }

  lemma TickIsNoUse(k: Knobs, s: Slot, now: real, reachable: real)
    ensures var s' := TickStep(k, s, now, reachable);
      && (s'.entry.Some? <==> s.entry.Some?)
      && (s.entry.Some? ==> s'.entry.value.usedAt == s.entry.value.usedAt)
  {
  }

  /** A pass turns a REACHABLE entry STALE exactly when it is as old as the lifetime in force, and
      otherwise leaves it as it is, unless the collector takes it. */
  lemma ReachableAges(k: Knobs, c: Cache, now: real, reachable: real, c': Cache, a: Addr)
    requires k.Valid() && Next(k, c, Maintain(now, reachable), c') && a in c.entries && a in c'.entries
    requires c.entries[a].state == REACHABLE
    ensures var e := c.entries[a];
      c'.entries[a] == if now - e.changedAt >= reachable then e.(state := STALE, changedAt := now) else e
  {
    var mid :| Ticks(k, c, mid, now, reachable) && Collects(k, mid, c', now);
    assert SlotOf(c, a).entry == Some(c.entries[a]) && SlotOf(c', a).entry == Some(c'.entries[a]);
    assert SlotOf(c', a) == SlotOf(mid, a);
  }

  /** A reply for an entry that is not configured hands its whole queue to the flush callback, in order
      and with the MAC of the reply, and leaves the queue empty. */
  lemma ReplyDeliversQueue(k: Knobs, c: Cache, a: Addr, mac: Mac, now: real, c': Cache)
    requires k.Valid() && Next(k, c, Reply(a, mac, now), c') && k.flushHook
    requires a in c.entries && c.entries[a].state != PERMANENT
    ensures a in c'.entries && c'.entries[a].queue == [] && c'.entries[a].mac == Some(mac)
    ensures HistoryOf(c'.hist, a).sent == HistoryOf(c.hist, a).sent + WithMac(c.entries[a].queue, mac)
  {
    assert SlotOf(c', a).entry == EntryOf(c'.entries, a) && SlotOf(c, a).entry == Some(c.entries[a]);
  }

  // ----- when a queue belongs to an address that is being resolved

  ghost predicate QueuedWhileIncomplete(s: Slot) {
    s.entry.Some? && s.entry.value.queue != [] ==> s.entry.value.state == INCOMPLETE
  }

  /** There is no entry for a, or it is being resolved. */
  predicate Awaiting(c: Cache, a: Addr) {
    a !in c.entries || c.entries[a].state == INCOMPLETE
  }

  /** After an enqueue the queue is that of an INCOMPLETE entry exactly when the entry was INCOMPLETE
      before, or there is none. */
  lemma EnqueueIff(k: Knobs, c: Cache, a: Addr, p: Packet, c': Cache)
    requires k.Valid() && Next(k, c, Enqueue(a, p), c')
    ensures QueuedWhileIncomplete(SlotOf(c', a)) <==> Awaiting(c, a)
  {
    assert SlotOf(c, a).entry == EntryOf(c.entries, a);
  }

  lemma MaintainQueued(k: Knobs, c: Cache, now: real, reachable: real, c': Cache, a: Addr)
    requires k.Valid() && Next(k, c, Maintain(now, reachable), c') && QueuedWhileIncomplete(SlotOf(c, a))
    ensures QueuedWhileIncomplete(SlotOf(c', a))
  {
    var mid :| Ticks(k, c, mid, now, reachable) && Collects(k, mid, c', now);
    TickQueued(k, SlotOf(c, a), now, reachable);
    assert SlotOf(c', a) == SlotOf(mid, a) || SlotOf(c', a) == GoneStep(SlotOf(mid, a));
  }

  lemma TickQueued(k: Knobs, s: Slot, now: real, reachable: real)
    requires QueuedWhileIncomplete(s)
    ensures QueuedWhileIncomplete(TickStep(k, s, now, reachable))
  {
  }

  lemma NextQueued(k: Knobs, c: Cache, ev: Event, c': Cache, a: Addr)
    requires k.Valid() && Next(k, c, ev, c') && QueuedWhileIncomplete(SlotOf(c, a))
    requires ev.Enqueue? ==> Awaiting(c, ev.a)
    ensures QueuedWhileIncomplete(SlotOf(c', a))
  {
    if ev.Maintain? {
      MaintainQueued(k, c, ev.now, ev.reachable, c', a);
    } else if ev.Enqueue? {
      EnqueueIff(k, c, ev.a, ev.p, c');
    }
  }

  /** Every enqueue of the run finds no entry or one that is being resolved. */
  ghost predicate EnqueuesAwaiting(cs: seq<Cache>, evs: seq<Event>)
    requires |cs| == |evs| + 1
  {
    forall i :: 0 <= i < |evs| && evs[i].Enqueue? ==> Awaiting(cs[i], evs[i].a)
  }

  lemma {:induction false} RunQueued(k: Knobs, cs: seq<Cache>, evs: seq<Event>, i: nat, a: Addr)
    requires k.Valid() && Run(k, cs, evs) && EnqueuesAwaiting(cs, evs) && i < |cs|
    ensures QueuedWhileIncomplete(SlotOf(cs[i], a))
  {
    if i == 0 {
    } else {
      RunQueued(k, cs, evs, i - 1, a);
      NextQueued(k, cs[i - 1], evs[i - 1], cs[i], a);
    }
  }

  /** Throughout a run packets wait only in INCOMPLETE entries, exactly when every enqueue of it finds
      no entry or an INCOMPLETE one. */
  lemma QueuedIncompleteIff(k: Knobs, cs: seq<Cache>, evs: seq<Event>)
    requires k.Valid() && Run(k, cs, evs)
    ensures (forall i, a :: 0 <= i < |cs| ==> QueuedWhileIncomplete(SlotOf(cs[i], a))) <==> EnqueuesAwaiting(cs, evs)
  {
    if EnqueuesAwaiting(cs, evs) {
      forall i, a | 0 <= i < |cs|
        ensures QueuedWhileIncomplete(SlotOf(cs[i], a))
      {
        RunQueued(k, cs, evs, i, a);
      }
    } else {
      var i :| 0 <= i < |evs| && evs[i].Enqueue? && !Awaiting(cs[i], evs[i].a);
      EnqueueIff(k, cs[i], evs[i].a, evs[i].p, cs[i + 1]);
    }
  }

  /** A reply and then an enqueue: the packet waits in a REACHABLE entry, whose MAC is known. */
  lemma QueuedWhileReachable(k: Knobs) returns (cs: seq<Cache>, evs: seq<Event>)
    requires k.Valid()
    ensures Run(k, cs, evs) && evs == [Reply(1, 2, 0.0), Enqueue(1, 3)]
    ensures cs[2].entries == map[1 := Entry(Some(2), REACHABLE, 0.0, 0, [3], 0.0)]
  {
    var e := Entry(Some(2), REACHABLE, 0.0, 0, [], 0.0);
    var c1 := Cache(map[1 := e], map[]);
    var c2 := Cache(map[1 := e.(queue := [3])], map[1 := NO_HISTORY.(accepted := [3])]);
    evs := [Reply(1, 2, 0.0), Enqueue(1, 3)];
    cs := [EMPTY, c1, c2];
    assert Next(k, EMPTY, evs[0], c1);
    assert Repeat(Dropped(Overflow), 0) == [] && e.queue[0..] + [3] == [3];
    assert EnqueueStep(SlotOf(c1, 1), 3, k.queueLen) == SlotOf(c2, 1);
    assert Next(k, c1, evs[1], c2);
  }

  /** A packet is queued only right after a lookup of its address found nothing. */
  ghost predicate QueuesAfterMiss(evs: seq<Event>) {
    forall i :: 0 <= i < |evs| && evs[i].Enqueue? ==>
      i > 0 && evs[i - 1].Find? && evs[i - 1].a == evs[i].a && evs[i - 1].found.None?
  }

  lemma MissLeavesIncomplete(k: Knobs, c: Cache, ev: Event, c': Cache)
    requires k.Valid() && CacheInv(k, c) && Next(k, c, ev, c') && ev.Find? && ev.found.None?
    ensures SlotOf(c', ev.a).entry.Some? && SlotOf(c', ev.a).entry.value.state == INCOMPLETE
  {
    assert SlotInv(k, SlotOf(c, ev.a));
  }

  /** With callers of that discipline a non-empty queue means the address is still being resolved. */
  lemma QueuedMeansIncomplete(k: Knobs, cs: seq<Cache>, evs: seq<Event>, i: nat, a: Addr)
    requires k.Valid() && Run(k, cs, evs) && QueuesAfterMiss(evs) && i < |cs|
    ensures QueuedWhileIncomplete(SlotOf(cs[i], a))
  {
    forall j | 0 <= j < |evs| && evs[j].Enqueue?
      ensures Awaiting(cs[j], evs[j].a)
    {
      RunKeeps(k, cs, evs, j - 1);
      MissLeavesIncomplete(k, cs[j - 1], evs[j - 1], cs[j]);
    }
    RunQueued(k, cs, evs, i, a);
  }

  // ----- the table after a maintenance pass

  /** After every maintenance pass the table is within the hard cap or holds only protected entries,
      and only a FAILED entry can take queued packets with it. */
  lemma MaintainBounds(k: Knobs, c: Cache, now: real, reachable: real, c': Cache)
    requires k.Valid() && Next(k, c, Maintain(now, reachable), c')
    ensures |c'.entries| <= k.thresh3 || forall a :: a in c'.entries ==> Protected(c'.entries[a])
    ensures forall a :: a in c.entries && a !in c'.entries && c.entries[a].queue != [] ==>
      var s := TickStep(k, SlotOf(c, a), now, reachable);
      s.entry.Some? && s.entry.value.state == FAILED
  {
    var mid :| Ticks(k, c, mid, now, reachable) && Collects(k, mid, c', now);
    WithinCapOrProtected(k, mid.entries, c'.entries, now);
    ProtectedSurvive(k, mid.entries, c'.entries, now);
    forall a | a in c.entries && a !in c'.entries && c.entries[a].queue != []
      ensures TickStep(k, SlotOf(c, a), now, reachable).entry.Some?
      ensures TickStep(k, SlotOf(c, a), now, reachable).entry.value.state == FAILED
    {
      TickKeepsQueue(k, SlotOf(c, a), now, reachable);
      assert SlotOf(mid, a).entry == EntryOf(mid.entries, a);
    }
  }

  lemma TickKeepsQueue(k: Knobs, s: Slot, now: real, reachable: real)
    requires s.entry.Some?
    ensures var s' := TickStep(k, s, now, reachable);
      s'.entry.Some? && (s'.entry.value.state == FAILED || QueueOf(s') == QueueOf(s))
      && (s'.entry.value.state == PERMANENT ==> s.entry.value.state == PERMANENT)
  {
  }

  // ----- an unanswered episode ends

  /** ev neither answers for a nor takes its entry away. */
  predicate LeavesUnanswered(ev: Event, a: Addr) {
    match ev
    case Reply(b, _, _) => b != a
    case SetPermanent(b, _, _) => b != a
    case Remove(b, _) => b != a
    case Confirm(b, _) => b != a
    case Flush(_) => false
    case Find(_, _, _) => true
    case Enqueue(_, _) => true
    case Maintain(_, _) => true
  }

  /** How many maintenance passes keep the distance gap from the previous one counted, from since on. */
  function SpacedPasses(evs: seq<Event>, since: real, gap: real): nat {
    if evs == [] then 0
    else if evs[0].Maintain? && evs[0].now - since >= gap then 1 + SpacedPasses(evs[1..], evs[0].now, gap)
    else SpacedPasses(evs[1..], since, gap)
  }

  predicate Resolving(e: Entry) {
    e.state == INCOMPLETE || e.state == PROBE
  }

  ghost predicate GivenUp(c: Cache, a: Addr) {
    a !in c.entries || c.entries[a].state == FAILED
  }

  ghost predicate SameEpisode(e: Entry, e': Entry) {
    e'.state == e.state && e'.probes == e.probes && e'.changedAt == e.changedAt
  }

  /** What one unanswered event does to a running episode: its end, one more solicit when a pass comes
      late enough, and nothing otherwise. */
  ghost predicate Continues(k: Knobs, e: Entry, ev: Event, c': Cache, a: Addr) {
    || GivenUp(c', a)
    || (if ev.Maintain? && ev.now - e.changedAt >= k.retrans
        then e.probes < Budget(k, e.state)
             && SameEpisode(e.(probes := e.probes + 1, changedAt := ev.now), c'.entries[a])
        else (ev.Maintain? ==> e.probes < Budget(k, e.state)) && SameEpisode(e, c'.entries[a]))
  }

  /** What a pass makes of an entry that is being resolved or probed. */
  lemma TickContinues(k: Knobs, s: Slot, now: real, reachable: real)
    requires s.entry.Some? && Resolving(s.entry.value)
    ensures var e, s' := s.entry.value, TickStep(k, s, now, reachable);
      && s'.entry.Some?
      && (e.probes >= Budget(k, e.state) ==> s'.entry.value.state == FAILED)
      && (e.probes < Budget(k, e.state) && now - e.changedAt >= k.retrans ==>
            SameEpisode(e.(probes := e.probes + 1, changedAt := now), s'.entry.value))
      && (e.probes < Budget(k, e.state) && now - e.changedAt < k.retrans ==> s' == s)
  {
  }

  lemma UnansweredPass(k: Knobs, c: Cache, now: real, reachable: real, c': Cache, a: Addr)
    requires k.Valid() && Next(k, c, Maintain(now, reachable), c')
    requires a in c.entries && Resolving(c.entries[a])
    ensures Continues(k, c.entries[a], Maintain(now, reachable), c', a)
  {
    var mid :| Ticks(k, c, mid, now, reachable) && Collects(k, mid, c', now);
    assert SlotOf(c, a).entry == Some(c.entries[a]);
    TickContinues(k, SlotOf(c, a), now, reachable);
    if a in c'.entries {
      assert SlotOf(c', a) == SlotOf(mid, a) == TickStep(k, SlotOf(c, a), now, reachable);
      assert SlotOf(c', a).entry == Some(c'.entries[a]);
    }
  }

  lemma UnansweredStep(k: Knobs, c: Cache, ev: Event, c': Cache, a: Addr)
    requires k.Valid() && Next(k, c, ev, c') && LeavesUnanswered(ev, a)
    requires a in c.entries && Resolving(c.entries[a])
    ensures Continues(k, c.entries[a], ev, c', a)
  {
    if ev.Maintain? {
      UnansweredPass(k, c, ev.now, ev.reachable, c', a);
    } else {
      assert SlotOf(c, a).entry == Some(c.entries[a]);
      assert SlotOf(c', a).entry == EntryOf(c'.entries, a);
    }
  }

  lemma StepsTail(k: Knobs, cs: seq<Cache>, evs: seq<Event>)
    requires k.Valid() && Steps(k, cs, evs) && evs != []
    ensures Steps(k, cs[1..], evs[1..])
  {
    forall i | 0 <= i < |evs[1..]|
      ensures Next(k, cs[1..][i], evs[1..][i], cs[1..][i + 1])
    {
      assert Next(k, cs[i + 1], evs[i + 1], cs[i + 1 + 1]);
    }
  }

  /** An episode that nobody answers reaches FAILED, or its entry is evicted, after at most as many
      maintenance passes spaced by the retransmit timer as it has solicits left, and one more. */
  lemma {:induction false} UnansweredFails(k: Knobs, cs: seq<Cache>, evs: seq<Event>, a: Addr) returns (i: nat)
    requires k.Valid() && Steps(k, cs, evs)
    requires a in cs[0].entries && Resolving(cs[0].entries[a])
    requires forall j :: 0 <= j < |evs| ==> LeavesUnanswered(evs[j], a)
    requires var e := cs[0].entries[a];
      var passes := SpacedPasses(evs, e.changedAt, k.retrans);
      passes + e.probes > Budget(k, e.state) && passes >= 1
    ensures i < |cs| && GivenUp(cs[i], a)
    decreases |evs|
  {
    var e := cs[0].entries[a];
    assert Next(k, cs[0], evs[0], cs[1]);
    UnansweredStep(k, cs[0], evs[0], cs[1], a);
    if GivenUp(cs[1], a) {
      i := 1;
    } else {
      StepsTail(k, cs, evs);
      i := UnansweredFails(k, cs[1..], evs[1..], a);
      i := i + 1;
    }
  }
}
