/** The neighbour cache itself: entries updated in place, with the callbacks recorded. */
module NeighborCache {
  import opened Options
  import opened Neighbor
  import opened NeighborGc
  import opened NeighborRun

  /** The histories once the collector has kept only the given entries. */
  ghost function HistAfter(c: Cache, kept: Table): map<Addr, History> {
    map a | a in c.hist.Keys + c.entries.Keys ::
      if a in c.entries && a !in kept then GoneStep(SlotOf(c, a)).hist else HistoryOf(c.hist, a)
  }

  lemma KeptSlots(c: Cache, kept: Table, a: Addr)
    requires a in kept ==> a in c.entries && kept[a] == c.entries[a]
    ensures SlotOf(Cache(kept, HistAfter(c, kept)), a)
         == if a in c.entries && a !in kept then GoneStep(SlotOf(c, a)) else SlotOf(c, a)
  {
  }

  lemma CollectsKept(k: Knobs, c: Cache, kept: Table, now: real)
    requires Collected(k, c.entries, kept, now)
    ensures Collects(k, c, Cache(kept, HistAfter(c, kept)), now)
  {
    ProtectedSurvive(k, c.entries, kept, now);
    forall a
      ensures SlotOf(Cache(kept, HistAfter(c, kept)), a)
           == if a in c.entries && a !in kept then GoneStep(SlotOf(c, a)) else SlotOf(c, a)
    {
      KeptSlots(c, kept, a);
    }
  }

  class NeighborCache {
    const knobs: Knobs
    /** The configured REACHABLE lifetime, in force while no override is set. */
    const reachableTime: real
    var entries: Table
    var reachableOverride: Option<real>
    /** What the callbacks and callers have observed, per address. */
    ghost var hist: map<Addr, History>

    ghost function Model(): Cache
      reads this
    {
      Cache(entries, hist)
    }

    constructor (knobs: Knobs, reachableTime: real)
      ensures Model() == EMPTY && this.knobs == knobs && this.reachableTime == reachableTime
      ensures reachableOverride == None
    {
      this.knobs := knobs;
      this.reachableTime := reachableTime;
      entries := map[];
      reachableOverride := None;
      hist := map[];
    }

    /** From now on a REACHABLE entry turns STALE at the first pass that finds it at least that old;
        no entry changes yet. */
    method SetReachableTimeOverrideMs(valueMs: Option<int>)
      modifies this`reachableOverride
      ensures Model() == old(Model())
      ensures EffectiveReachableTime() == if valueMs.Some? then valueMs.value as real / 1000.0 else reachableTime
      ensures knobs.Valid() ==>
        StaleAtAge(if valueMs.Some? then valueMs.value as real / 1000.0 else reachableTime)
    {
      reachableOverride := if valueMs.Some? then Some(valueMs.value as real / 1000.0) else None;
      if knobs.Valid() {
        NextPassAges();
      }
    }

    /** What the next pass keeps of the REACHABLE entries is STALE if it has that age, and as it is if not. */
    ghost predicate StaleAtAge(lifetime: real)
      reads this
      requires knobs.Valid()
    {
      forall now, c', a ::
        Next(knobs, Model(), Maintain(now, EffectiveReachableTime()), c')
        && a in entries && entries[a].state == REACHABLE && a in c'.entries ==>
          var e := entries[a];
          c'.entries[a] == if now - e.changedAt >= lifetime then e.(state := STALE, changedAt := now) else e
    }

    lemma NextPassAges()
      requires knobs.Valid()
      ensures StaleAtAge(EffectiveReachableTime())
    {
      forall now, c', a |
        Next(knobs, Model(), Maintain(now, EffectiveReachableTime()), c')
        && a in entries && entries[a].state == REACHABLE && a in c'.entries
        ensures var e := entries[a];
          c'.entries[a] ==
            if now - e.changedAt >= EffectiveReachableTime() then e.(state := STALE, changedAt := now) else e
      {
        ReachableAges(knobs, Model(), now, EffectiveReachableTime(), c', a);
      }
    }

    function EffectiveReachableTime(): real
      reads this
    {
      if reachableOverride.Some? then reachableOverride.value else reachableTime
    }

    // ----- callbacks

    /** The solicit callback; first marks the start of an episode. */
    method OnSolicit(a: Addr, mac: Option<Mac>, now: real, ghost first: bool)
      modifies this`hist
      ensures var h := HistoryOf(old(hist), a);
        hist == old(hist)[a := if first then FirstAsked(h, now, mac) else Asked(h, now, mac)]
    {
      ghost var h := HistoryOf(hist, a);
      hist := hist[a := if first then FirstAsked(h, now, mac) else Asked(h, now, mac)];
    }

    /** The flush callback. */
    method OnFlush(a: Addr, packet: Packet, mac: Mac)
      modifies this`hist
      ensures var h := HistoryOf(old(hist), a);
        hist == old(hist)[a := h.(sent := h.sent + [(packet, mac)], fates := h.fates + [Sent(mac)])]
    {
      ghost var h := HistoryOf(hist, a);
      hist := hist[a := h.(sent := h.sent + [(packet, mac)], fates := h.fates + [Sent(mac)])];
    }

    // ----- helpers of the source

    /** `_transition` */
    method Transition(a: Addr, state: State, now: real)
      requires a in entries
      modifies this`entries
      ensures entries == old(entries)[a := old(entries[a]).(state := state, changedAt := now)]
    {
      entries := entries[a := entries[a].(state := state, changedAt := now)];
    }

    /** `_fail_entry` */
    method FailEntry(a: Addr, now: real)
      requires a in entries
      modifies this`entries, this`hist
      ensures Replaces(old(Model()), Model(), a, FailStep(SlotOf(old(Model()), a), now))
      ensures entries.Keys == old(entries.Keys)
    {
      ghost var dropped := |entries[a].queue|;
      entries := entries[a := entries[a].(queue := [])];
      hist := hist[a := Settle(HistoryOf(hist, a), dropped, Dropped(Unresolved))];
      Transition(a, FAILED, now);
    }

    // ----- public operations

    /** `_find_entry` */
    method FindEntry(a: Addr, now: real) returns (r: Option<Mac>)
      requires knobs.Valid()
      modifies this`entries, this`hist
      ensures Next(knobs, old(Model()), Find(a, now, r), Model())
    {
      if a !in entries {
        entries := entries[a := Entry(None, INCOMPLETE, now, 1, [], now)];
        OnSolicit(a, None, now, true);
        return None;
      }
      entries := entries[a := entries[a].(usedAt := now)];
      var state := entries[a].state;
      if state == REACHABLE || state == DELAY || state == PROBE || state == PERMANENT {
        return entries[a].mac;
      }
      if state == STALE {
        Transition(a, DELAY, now);
        return entries[a].mac;
      }
      if state == FAILED {
        Transition(a, INCOMPLETE, now);
        entries := entries[a := entries[a].(probes := 1)];
        entries := entries[a := entries[a].(mac := None)];
        OnSolicit(a, None, now, true);
        return None;
      }
      return None;
    }

    /** `_add_entry` */
    method AddEntry(a: Addr, mac: Mac, now: real)
      requires knobs.Valid()
      modifies this`entries, this`hist
      ensures Next(knobs, old(Model()), Reply(a, mac, now), Model())
    {
      if a in entries && entries[a].state == PERMANENT {
        return;
      }
      if a !in entries {
        entries := entries[a := Entry(Some(mac), REACHABLE, now, 0, [], now)];
        return;
      }
      var queued := entries[a].queue;
      entries := entries[a := entries[a].(queue := [])];
      entries := entries[a := entries[a].(mac := Some(mac))];
      entries := entries[a := entries[a].(probes := 0)];
      Transition(a, REACHABLE, now);
      if queued != [] && knobs.flushHook {
        FlushQueue(a, queued, mac);
      } else {
        hist := hist[a := Settle(HistoryOf(hist, a), |queued|, if knobs.flushHook then Sent(mac) else Dropped(NoHook))];
        assert WithMac([], mac) == [];
      }
    }

    /** The loop that hands every queued packet to the flush callback. */
    method FlushQueue(a: Addr, queued: seq<Packet>, mac: Mac)
      modifies this`hist
      ensures var h := HistoryOf(old(hist), a);
        && HistoryOf(hist, a) == Settle(h, |queued|, Sent(mac)).(sent := h.sent + WithMac(queued, mac))
        && forall b :: b != a ==> HistoryOf(hist, b) == HistoryOf(old(hist), b)
    {
      for i := 0 to |queued|
        invariant var h := HistoryOf(old(hist), a);
          && HistoryOf(hist, a) == Settle(h, i, Sent(mac)).(sent := h.sent + WithMac(queued[..i], mac))
          && forall b :: b != a ==> HistoryOf(hist, b) == HistoryOf(old(hist), b)
      {
        OnFlush(a, queued[i], mac);
        assert Repeat(Sent(mac), i + 1) == Repeat(Sent(mac), i) + [Sent(mac)];
        assert WithMac(queued[..i + 1], mac) == WithMac(queued[..i], mac) + [(queued[i], mac)];
      }
      assert queued[..|queued|] == queued;
    }

    /** `_add_permanent_entry` */
    method AddPermanentEntry(a: Addr, mac: Mac, now: real)
      requires knobs.Valid()
      modifies this`entries, this`hist
      ensures Next(knobs, old(Model()), SetPermanent(a, mac, now), Model())
    {
      hist := hist[a := GoneStep(SlotOf(Model(), a)).hist];
      entries := entries[a := Entry(Some(mac), PERMANENT, now, 0, [], now)];
    }

    /** `_remove_entry` */
    method RemoveEntry(a: Addr) returns (existed: bool)
      requires knobs.Valid()
      modifies this`entries, this`hist
      ensures Next(knobs, old(Model()), Remove(a, existed), Model())
    {
      existed := a in entries;
      hist := hist[a := GoneStep(SlotOf(Model(), a)).hist];
      entries := entries - {a};
    }

    /** `_flush` */
    method FlushAll() returns (count: nat)
      requires knobs.Valid()
      modifies this`entries, this`hist
      ensures Next(knobs, old(Model()), Flush(count), Model())
    {
      count := |entries|;
      ghost var c := Model();
      hist := map a | a in hist.Keys + entries.Keys :: GoneStep(SlotOf(c, a)).hist;
      entries := map[];
      forall a
        ensures SlotOf(Model(), a) == GoneStep(SlotOf(c, a))
      {
        assert a !in c.hist && a !in c.entries ==> Repeat(Dropped(EntryGone), 0) == [];
      }
    }

    /** `_confirm_reachability` */
    method ConfirmReachability(a: Addr, now: real)
      requires knobs.Valid()
      modifies this`entries
      ensures Next(knobs, old(Model()), Confirm(a, now), Model())
    {
      if a !in entries {
        return;
      }
      var state := entries[a].state;
      if state == STALE || state == DELAY || state == PROBE {
        Transition(a, REACHABLE, now);
        entries := entries[a := entries[a].(probes := 0)];
      }
    }

    /** `_enqueue_pending` */
    method EnqueuePending(a: Addr, packet: Packet)
      requires knobs.Valid()
      modifies this`entries, this`hist
      ensures Next(knobs, old(Model()), Enqueue(a, packet), Model())
    {
      if a !in entries {
        return;
      }
      var queue := entries[a].queue;
      ghost var full := queue;
      ghost var over := 0;
      while |queue| >= knobs.queueLen
        invariant over <= |full| && queue == full[over..]
        invariant over > 0 ==> |queue| >= knobs.queueLen - 1
      {
        queue := queue[1..];
        over := over + 1;
      }
      queue := queue + [packet];
      entries := entries[a := entries[a].(queue := queue)];
      ghost var h := Settle(HistoryOf(hist, a), over, Dropped(Overflow));
      hist := hist[a := h.(accepted := h.accepted + [packet])];
    }

    // ----- the maintenance pass

    /** The body of the loop over entries. */
    method TickEntry(a: Addr, now: real, reachable: real)
      requires knobs.Valid() && a in entries
      modifies this`entries, this`hist
      ensures Replaces(old(Model()), Model(), a, TickStep(knobs, SlotOf(old(Model()), a), now, reachable))
      ensures entries.Keys == old(entries.Keys)
    {
      var e := entries[a];
      var age := now - e.changedAt;
      var cachedMac: Option<Mac> := None;
      if e.state == REACHABLE && age >= reachable {
        Transition(a, STALE, now);
        return;
      }
      if e.state == DELAY && age >= knobs.delay {
        Transition(a, PROBE, now);
        entries := entries[a := entries[a].(probes := 1)];
        cachedMac := e.mac;
      } else if e.state == INCOMPLETE {
        if e.probes >= knobs.maxMulticast {
          FailEntry(a, now);
          return;
        }
        if age >= knobs.retrans {
          entries := entries[a := e.(probes := e.probes + 1, changedAt := now)];
        } else {
          return;
        }
      } else if e.state == PROBE {
        if e.probes >= knobs.maxUnicast {
          FailEntry(a, now);
          return;
        }
        if age >= knobs.retrans {
          entries := entries[a := e.(probes := e.probes + 1, changedAt := now)];
          cachedMac := e.mac;
        } else {
          return;
        }
      } else {
        return;
      }
      OnSolicit(a, cachedMac, now, e.state == DELAY);
    }

    /** `run_maintenance_once` */
    method RunMaintenanceOnce(now: real)
      requires knobs.Valid()
      modifies this`entries, this`hist
      ensures Next(knobs, old(Model()), Maintain(now, old(EffectiveReachableTime())), Model())
    {
      var reachable := EffectiveReachableTime();
      TickAll(now, reachable);
      ghost var mid := Model();
      CollectGarbage(now);
      assert Ticks(knobs, old(Model()), mid, now, reachable) && Collects(knobs, mid, Model(), now);
    }

    /** The collector's pass; a packet still queued in an evicted entry is dropped with it. */
    method CollectGarbage(now: real)
      requires knobs.Valid()
      modifies this`entries, this`hist
      ensures Collects(knobs, old(Model()), Model(), now)
    {
      var kept := GcPass(knobs, entries, now);
      CollectsKept(knobs, Model(), kept, now);
      hist := HistAfter(Model(), kept);
      entries := kept;
    }

    /** The loop over a snapshot of the addresses, in any order. */
    method TickAll(now: real, reachable: real)
      requires knobs.Valid()
      modifies this`entries, this`hist
      ensures Ticks(knobs, old(Model()), Model(), now, reachable)
    {
      var todo := entries.Keys;
      while todo != {}
        invariant todo <= entries.Keys
        invariant forall a :: a in todo ==> SlotOf(Model(), a) == SlotOf(old(Model()), a)
        invariant forall a :: a !in todo ==>
                    SlotOf(Model(), a) == TickStep(knobs, SlotOf(old(Model()), a), now, reachable)
        decreases |todo|
      {
        var a :| a in todo;
        TickEntry(a, now, reachable);
        todo := todo - {a};
      }
    }
  }
}
