/** What each call on the neighbour cache does to the entry and the history of an address, field by
    field, and what follows for whole runs. */
module NeighborEffects {
  import opened Options
  import opened Neighbor
  import opened NeighborInvariant
  import opened NeighborGc
  import opened NeighborRun

  /** A call about one address touches no other. */
  lemma OthersUntouched(k: Knobs, c: Cache, ev: Event, c': Cache, b: Addr)
    requires k.Valid() && Next(k, c, ev, c') && !ev.Flush? && !ev.Maintain? && ev.a != b
    ensures EntryOf(c'.entries, b) == EntryOf(c.entries, b) && HistoryOf(c'.hist, b) == HistoryOf(c.hist, b)
  {
    assert SlotOf(c', b) == SlotOf(c, b);
  }

  // ----- lookups

  /** The states in which an entry's MAC is handed out. */
  predicate Usable(state: State) {
    state == REACHABLE || state == STALE || state == DELAY || state == PROBE || state == PERMANENT
  }

  /** In every run a lookup finds a MAC exactly when the address has an entry in a usable state, and
      then it is the entry's. */
  lemma LookupFindsIff(k: Knobs, cs: seq<Cache>, evs: seq<Event>, i: nat)
    requires k.Valid() && Run(k, cs, evs) && i < |evs| && evs[i].Find?
    ensures var a := evs[i].a;
      && (evs[i].found.Some? <==> a in cs[i].entries && Usable(cs[i].entries[a].state))
      && (evs[i].found.Some? ==> evs[i].found == cs[i].entries[a].mac)
  {
    RunKeeps(k, cs, evs, i);
    assert SlotInv(k, SlotOf(cs[i], evs[i].a));
    assert Next(k, cs[i], evs[i], cs[i + 1]);
  }

  /** Resolution starts, with one solicit to nobody in particular, exactly when there is no entry or a
      FAILED one. Otherwise a lookup leaves the entry as it is but for its time of use, and for the
      DELAY that follows STALE. It neither queues nor settles a packet. */
  lemma LookupEffect(k: Knobs, c: Cache, a: Addr, now: real, found: Option<Mac>, c': Cache)
    requires k.Valid() && Next(k, c, Find(a, now, found), c')
    ensures a in c'.entries && c'.entries[a].usedAt == now
    ensures var starts := a !in c.entries || c.entries[a].state == FAILED;
      var e', h, h' := c'.entries[a], HistoryOf(c.hist, a), HistoryOf(c'.hist, a);
      && h'.accepted == h.accepted && h'.fates == h.fates && h'.sent == h.sent
      && h'.solicits == h.solicits + (if starts then [Solicit(now, None)] else [])
      && e'.queue == (if a in c.entries then c.entries[a].queue else [])
      && (starts ==> e'.state == INCOMPLETE && e'.mac == None && e'.probes == 1 && e'.changedAt == now)
      && (!starts ==> var e := c.entries[a];
            && e'.mac == e.mac && e'.probes == e.probes
            && e'.state == (if e.state == STALE then DELAY else e.state)
            && e'.changedAt == (if e.state == STALE then now else e.changedAt))
  {
    assert SlotOf(c', a).entry == EntryOf(c'.entries, a) && SlotOf(c, a).entry == EntryOf(c.entries, a);
    assert HistoryOf(c'.hist, a) == SlotOf(c', a).hist && HistoryOf(c.hist, a) == SlotOf(c, a).hist;
  }

  // ----- replies, confirmations and configuration

  /** A reply for an address without an entry creates a REACHABLE one with the MAC of the reply; for a
      configured neighbour it changes nothing; otherwise the entry is REACHABLE from now on with that
      MAC and an empty queue, whose packets were sent to it or, without a callback, dropped. */
  lemma ReplyEffect(k: Knobs, c: Cache, a: Addr, mac: Mac, now: real, c': Cache)
    requires k.Valid() && Next(k, c, Reply(a, mac, now), c')
    ensures a in c'.entries
    ensures var e', h, h' := c'.entries[a], HistoryOf(c.hist, a), HistoryOf(c'.hist, a);
      && h'.accepted == h.accepted && h'.solicits == h.solicits
      && (a in c.entries && c.entries[a].state == PERMANENT ==> e' == c.entries[a] && h' == h)
      && (a !in c.entries ==> e' == Entry(Some(mac), REACHABLE, now, 0, [], now) && h' == h)
      && (a in c.entries && c.entries[a].state != PERMANENT ==>
            && e' == Entry(Some(mac), REACHABLE, now, 0, [], c.entries[a].usedAt)
            && |h'.fates| == |h.fates| + |c.entries[a].queue|
            && h'.sent == h.sent + if k.flushHook then WithMac(c.entries[a].queue, mac) else [])
  {
    assert SlotOf(c', a).entry == EntryOf(c'.entries, a) && SlotOf(c, a).entry == EntryOf(c.entries, a);
    assert HistoryOf(c'.hist, a) == SlotOf(c', a).hist && HistoryOf(c.hist, a) == SlotOf(c, a).hist;
  }

  /** A confirmation makes a STALE, DELAY or PROBE entry REACHABLE from now on and changes nothing
      else: no packet moves and nobody is asked. */
  lemma ConfirmEffect(k: Knobs, c: Cache, a: Addr, now: real, c': Cache)
    requires k.Valid() && Next(k, c, Confirm(a, now), c')
    ensures HistoryOf(c'.hist, a) == HistoryOf(c.hist, a) && (a in c'.entries <==> a in c.entries)
    ensures a in c.entries ==>
      var e, e' := c.entries[a], c'.entries[a];
      if e.state == STALE || e.state == DELAY || e.state == PROBE
      then e' == Entry(e.mac, REACHABLE, now, 0, e.queue, e.usedAt)
      else e' == e
  {
    assert SlotOf(c', a).entry == EntryOf(c'.entries, a) && SlotOf(c, a).entry == EntryOf(c.entries, a);
  }

  /** A configured neighbour replaces whatever there was; packets waiting there are dropped. */
  lemma ConfigureEffect(k: Knobs, c: Cache, a: Addr, mac: Mac, now: real, c': Cache)
    requires k.Valid() && Next(k, c, SetPermanent(a, mac, now), c')
    ensures a in c'.entries && c'.entries[a] == Entry(Some(mac), PERMANENT, now, 0, [], now)
    ensures DropsWaiting(c, c', a)
  {
    assert SlotOf(c', a).entry == EntryOf(c'.entries, a) && SlotOf(c, a).entry == EntryOf(c.entries, a);
    assert HistoryOf(c'.hist, a) == SlotOf(c', a).hist && HistoryOf(c.hist, a) == SlotOf(c, a).hist;
  }

  /** Every packet waiting for a gets the fate of being dropped, and nothing else is recorded. */
  ghost predicate DropsWaiting(c: Cache, c': Cache, a: Addr) {
    var h, h' := HistoryOf(c.hist, a), HistoryOf(c'.hist, a);
    && h'.accepted == h.accepted && h'.sent == h.sent && h'.solicits == h.solicits
    && |h'.fates| == |h.fates| + (if a in c.entries then |c.entries[a].queue| else 0)
    && h.fates <= h'.fates && forall i :: |h.fates| <= i < |h'.fates| ==> h'.fates[i].Dropped?
  }

  lemma RemoveEffect(k: Knobs, c: Cache, a: Addr, existed: bool, c': Cache)
    requires k.Valid() && Next(k, c, Remove(a, existed), c')
    ensures a !in c'.entries && (existed <==> a in c.entries) && DropsWaiting(c, c', a)
  {
    assert SlotOf(c', a).entry == EntryOf(c'.entries, a) && SlotOf(c, a).entry == EntryOf(c.entries, a);
    assert HistoryOf(c'.hist, a) == SlotOf(c', a).hist && HistoryOf(c.hist, a) == SlotOf(c, a).hist;
  }

  lemma FlushEffect(k: Knobs, c: Cache, count: nat, c': Cache)
    requires k.Valid() && Next(k, c, Flush(count), c')
    ensures c'.entries == map[] && count == |c.entries| && forall a :: DropsWaiting(c, c', a)
  {
    forall a
      ensures a !in c'.entries && DropsWaiting(c, c', a)
    {
      assert SlotOf(c', a).entry == EntryOf(c'.entries, a) && SlotOf(c, a).entry == EntryOf(c.entries, a);
      assert HistoryOf(c'.hist, a) == SlotOf(c', a).hist && HistoryOf(c.hist, a) == SlotOf(c, a).hist;
    }
  }

  // ----- queueing

  function Newest(queue: seq<Packet>, bound: nat): seq<Packet> {
    if |queue| <= bound then queue else queue[|queue| - bound..]
  }

  /** An enqueue keeps the newest packets that fit the bound and drops the others; without an entry it
      does nothing. The rest of the entry stays as it is and nobody is asked. */
  lemma EnqueueEffect(k: Knobs, c: Cache, a: Addr, p: Packet, c': Cache)
    requires k.Valid() && Next(k, c, Enqueue(a, p), c')
    ensures a in c'.entries <==> a in c.entries
    ensures a !in c.entries ==> HistoryOf(c'.hist, a) == HistoryOf(c.hist, a)
    ensures a in c.entries ==>
      var all := c.entries[a].queue + [p];
      var h, h' := HistoryOf(c.hist, a), HistoryOf(c'.hist, a);
      && c'.entries[a] == c.entries[a].(queue := Newest(all, k.queueLen))
      && h'.accepted == h.accepted + [p] && h'.sent == h.sent && h'.solicits == h.solicits
      && |h'.fates| == |h.fates| + |all| - |Newest(all, k.queueLen)|
  {
    assert SlotOf(c', a).entry == EntryOf(c'.entries, a) && SlotOf(c, a).entry == EntryOf(c.entries, a);
    assert HistoryOf(c'.hist, a) == SlotOf(c', a).hist && HistoryOf(c.hist, a) == SlotOf(c, a).hist;
    if a in c.entries {
      NewestIs(c.entries[a].queue, p, k.queueLen);
    }
  }

  lemma NewestIs(queue: seq<Packet>, p: Packet, bound: nat)
    requires bound >= 1
    ensures var over := if |queue| >= bound then |queue| - bound + 1 else 0;
      Newest(queue + [p], bound) == queue[over..] + [p]
  {
  }

  // ----- maintenance passes

  /** The next solicit of a running episode is due, and there is one left. */
  predicate AsksAgain(k: Knobs, e: Entry, now: real) {
    && now - e.changedAt >= k.retrans
    && ((e.state == INCOMPLETE && e.probes < k.maxMulticast) || (e.state == PROBE && e.probes < k.maxUnicast))
  }

  predicate StartsProbing(k: Knobs, e: Entry, now: real) {
    e.state == DELAY && now - e.changedAt >= k.delay
  }

  predicate GivesUp(k: Knobs, e: Entry) {
    (e.state == INCOMPLETE && e.probes >= k.maxMulticast) || (e.state == PROBE && e.probes >= k.maxUnicast)
  }

  predicate GoesStale(e: Entry, now: real, reachable: real) {
    e.state == REACHABLE && now - e.changedAt >= reachable
  }

  /** What a pass leaves of an entry it does not evict: the slot after its timers. */
  lemma PassSlot(k: Knobs, c: Cache, now: real, reachable: real, c': Cache, a: Addr)
    requires k.Valid() && Next(k, c, Maintain(now, reachable), c') && a in c'.entries
    ensures a in c.entries
    ensures Slot(Some(c'.entries[a]), HistoryOf(c'.hist, a))
         == TickStep(k, Slot(Some(c.entries[a]), HistoryOf(c.hist, a)), now, reachable)
  {
    PassIsNoUse(k, c, now, reachable, c', a);
    var mid :| Ticks(k, c, mid, now, reachable) && Collects(k, mid, c', now);
    assert SlotOf(c', a) == SlotOf(mid, a) == TickStep(k, SlotOf(c, a), now, reachable);
  }

  /** A pass that comes too early for an entry leaves it and its history exactly as they are. STALE,
      FAILED and PERMANENT entries have no timer at all. */
  lemma PassLeavesAlone(k: Knobs, c: Cache, now: real, reachable: real, c': Cache, a: Addr)
    requires k.Valid() && Next(k, c, Maintain(now, reachable), c') && a in c'.entries
    requires a in c.entries && forall to :: !Edge(k, c.entries[a], Maintain(now, reachable), a, to)
    requires !((c.entries[a].state == INCOMPLETE || c.entries[a].state == PROBE)
               && now - c.entries[a].changedAt >= k.retrans)
    ensures c'.entries[a] == c.entries[a] && HistoryOf(c'.hist, a) == HistoryOf(c.hist, a)
  {
    NoEdge(k, c.entries[a], now, reachable, a);
    PassSlot(k, c, now, reachable, c', a);
    TickIdle(k, c.entries[a], HistoryOf(c.hist, a), now, reachable);
  }

  lemma TickIdle(k: Knobs, e: Entry, h: History, now: real, reachable: real)
    requires !GoesStale(e, now, reachable) && !StartsProbing(k, e, now) && !GivesUp(k, e)
    requires !((e.state == INCOMPLETE || e.state == PROBE) && now - e.changedAt >= k.retrans)
    ensures TickStep(k, Slot(Some(e), h), now, reachable) == Slot(Some(e), h)
  {
  }

  lemma NoEdge(k: Knobs, e: Entry, now: real, reachable: real, a: Addr)
    requires forall to :: !Edge(k, e, Maintain(now, reachable), a, to)
    ensures !GoesStale(e, now, reachable) && !StartsProbing(k, e, now) && !GivesUp(k, e)
  {
    assert !Edge(k, e, Maintain(now, reachable), a, STALE);
    assert !Edge(k, e, Maintain(now, reachable), a, PROBE);
    assert !Edge(k, e, Maintain(now, reachable), a, FAILED);
  }

  /** The entry after a pass: the MAC and the time of use stay, the queue goes only when the episode is
      given up, and the time of change moves exactly when something happens. */
  ghost predicate PassedEntry(k: Knobs, e: Entry, now: real, reachable: real, e': Entry) {
    var again, starts := AsksAgain(k, e, now), StartsProbing(k, e, now);
    var fails, ages := GivesUp(k, e), GoesStale(e, now, reachable);
    && e'.mac == e.mac && e'.usedAt == e.usedAt
    && e'.state == (if ages then STALE else if starts then PROBE else if fails then FAILED else e.state)
    && e'.changedAt == (if ages || starts || fails || again then now else e.changedAt)
    && e'.probes == (if starts then 1 else if again then e.probes + 1 else e.probes)
    && e'.queue == if fails then [] else e.queue
  }

  /** The history after a pass: someone is asked exactly when probing starts or a further solicit is due,
      everybody while there is no MAC and the neighbour itself after that. No packet is accepted or sent. */
  ghost predicate PassedHistory(k: Knobs, e: Entry, h: History, now: real, h': History) {
    var asked := Solicit(now, if e.state == INCOMPLETE then None else e.mac);
    && h'.accepted == h.accepted && h'.sent == h.sent
    && h'.solicits == h.solicits + (if AsksAgain(k, e, now) || StartsProbing(k, e, now) then [asked] else [])
    && |h'.fates| == |h.fates| + (if GivesUp(k, e) then |e.queue| else 0)
  }

  lemma TickPassed(k: Knobs, e: Entry, h: History, now: real, reachable: real)
    ensures var s' := TickStep(k, Slot(Some(e), h), now, reachable);
      s'.entry.Some? && PassedEntry(k, e, now, reachable, s'.entry.value) && PassedHistory(k, e, h, now, s'.hist)
  {
  }

  /** What a pass does to an entry that stays. */
  lemma PassEffect(k: Knobs, c: Cache, now: real, reachable: real, c': Cache, a: Addr)
    requires k.Valid() && Next(k, c, Maintain(now, reachable), c') && a in c'.entries
    ensures a in c.entries && PassedEntry(k, c.entries[a], now, reachable, c'.entries[a])
    ensures PassedHistory(k, c.entries[a], HistoryOf(c.hist, a), now, HistoryOf(c'.hist, a))
  {
    PassSlot(k, c, now, reachable, c', a);
    TickPassed(k, c.entries[a], HistoryOf(c.hist, a), now, reachable);
  }

  /** Whether its entry stays or not, a pass accepts and sends no packet for an address, and it creates
      no entry. */
  lemma PassSendsNothing(k: Knobs, c: Cache, now: real, reachable: real, c': Cache, a: Addr)
    requires k.Valid() && Next(k, c, Maintain(now, reachable), c')
    ensures var h, h' := HistoryOf(c.hist, a), HistoryOf(c'.hist, a);
      && h'.accepted == h.accepted && h'.sent == h.sent
      && (a !in c.entries ==> a !in c'.entries && h' == h)
  {
    var mid :| Ticks(k, c, mid, now, reachable) && Collects(k, mid, c', now);
    assert SlotOf(mid, a) == TickStep(k, SlotOf(c, a), now, reachable);
    assert SlotOf(c, a) == Slot(EntryOf(c.entries, a), HistoryOf(c.hist, a));
    if a in c.entries {
      TickPassed(k, c.entries[a], HistoryOf(c.hist, a), now, reachable);
    } else {
      assert SlotOf(mid, a).entry == EntryOf(mid.entries, a);
      ProtectedSurvive(k, mid.entries, c'.entries, now);
    }
  }

  // ----- a DELAY entry is probed in time

  ghost predicate GoneBy(cs: seq<Cache>, a: Addr, n: nat) {
    exists j :: 0 <= j <= n && j < |cs| && a !in cs[j].entries
  }

  /** An unanswered event leaves a DELAY entry in DELAY since the same time, unless it is a pass late
      enough or takes the entry away. */
  lemma DelayWaits(k: Knobs, c: Cache, ev: Event, c': Cache, a: Addr)
    requires k.Valid() && Next(k, c, ev, c') && LeavesUnanswered(ev, a)
    requires a in c.entries && c.entries[a].state == DELAY && a in c'.entries
    requires ev.Maintain? ==> ev.now - c.entries[a].changedAt < k.delay
    ensures c'.entries[a].state == DELAY && c'.entries[a].changedAt == c.entries[a].changedAt
    ensures c'.entries[a].mac == c.entries[a].mac
  {
    match ev
    case Maintain(now, reachable) => PassEffect(k, c, now, reachable, c', a);
    case Find(b, now, found) =>
      if b == a {
        LookupEffect(k, c, a, now, found, c');
      } else {
        OthersUntouched(k, c, ev, c', a);
      }
    case Enqueue(b, p) =>
      if b == a {
        EnqueueEffect(k, c, a, p, c');
      } else {
        OthersUntouched(k, c, ev, c', a);
      }
    case _ => OthersUntouched(k, c, ev, c', a);
  }

  lemma {:induction false} DelayUntil(k: Knobs, cs: seq<Cache>, evs: seq<Event>, a: Addr, i: nat)
    requires k.Valid() && Steps(k, cs, evs) && i <= |evs|
    requires a in cs[0].entries && cs[0].entries[a].state == DELAY
    requires forall j :: 0 <= j < i ==> LeavesUnanswered(evs[j], a)
    requires forall j :: 0 <= j < i && evs[j].Maintain? ==> evs[j].now - cs[0].entries[a].changedAt < k.delay
    ensures GoneBy(cs, a, i) || (a in cs[i].entries && var e, e' := cs[0].entries[a], cs[i].entries[a];
              e'.state == DELAY && e'.changedAt == e.changedAt && e'.mac == e.mac)
  {
    if i == 0 {
    } else {
      DelayUntil(k, cs, evs, a, i - 1);
      if GoneBy(cs, a, i - 1) {
        var j :| 0 <= j <= i - 1 && j < |cs| && a !in cs[j].entries;
        assert GoneBy(cs, a, i);
      } else if a in cs[i].entries {
        assert Next(k, cs[i - 1], evs[i - 1], cs[i]);
        DelayWaits(k, cs[i - 1], evs[i - 1], cs[i], a);
      }
    }
  }

  /** A DELAY entry that nobody answers, confirms, configures or removes is left in DELAY by every pass
      before its time, and the first pass at least the delay after its lookup probes it: it is PROBE
      since that pass, which asked its MAC directly. Otherwise it has been evicted meanwhile. */
  lemma DelayIsProbed(k: Knobs, cs: seq<Cache>, evs: seq<Event>, a: Addr, i: nat)
    requires k.Valid() && Steps(k, cs, evs) && i < |evs|
    requires a in cs[0].entries && cs[0].entries[a].state == DELAY
    requires forall j :: 0 <= j < i ==> LeavesUnanswered(evs[j], a)
    requires forall j :: 0 <= j < i && evs[j].Maintain? ==> evs[j].now - cs[0].entries[a].changedAt < k.delay
    requires evs[i].Maintain? && evs[i].now - cs[0].entries[a].changedAt >= k.delay
    ensures GoneBy(cs, a, i + 1) ||
      (a in cs[i + 1].entries &&
         var e, h, h' := cs[i + 1].entries[a], HistoryOf(cs[i].hist, a), HistoryOf(cs[i + 1].hist, a);
         && e.state == PROBE && e.changedAt == evs[i].now && e.probes == 1
         && e.mac == cs[0].entries[a].mac && h'.solicits == h.solicits + [Solicit(evs[i].now, e.mac)])
  {
    DelayUntil(k, cs, evs, a, i);
    if GoneBy(cs, a, i) {
      var j :| 0 <= j <= i && j < |cs| && a !in cs[j].entries;
      assert GoneBy(cs, a, i + 1);
    } else if a in cs[i + 1].entries {
      assert Next(k, cs[i], evs[i], cs[i + 1]);
      PassEffect(k, cs[i], evs[i].now, evs[i].reachable, cs[i + 1], a);
    }
  }
}
