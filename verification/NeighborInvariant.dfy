/** What every operation keeps true of one address and its history. */
module NeighborInvariant {
  import opened Options
  import opened Neighbor

  // ----- packets

  /** The flush callbacks that the fates call for. */
  function Delivered(accepted: seq<Packet>, fates: seq<Fate>): seq<(Packet, Mac)>
    requires |fates| <= |accepted|
  {
    if fates == [] then [] else
      var n := |fates| - 1;
      Delivered(accepted, fates[..n]) + if fates[n].Sent? then [(accepted[n], fates[n].mac)] else []
  }

  /** Every accepted packet has one fate or is in the queue, and the flush callbacks were the fates. */
  ghost predicate Conserved(s: Slot) {
    var h := s.hist;
    && |h.fates| <= |h.accepted|
    && QueueOf(s) == h.accepted[|h.fates|..]
    && h.sent == Delivered(h.accepted, h.fates)
  }

  // ----- solicits

  /** The solicits of the latest episode. */
  function EpisodeOf(h: History): seq<Solicit>
    requires h.episode <= |h.solicits|
  {
    h.solicits[h.episode..]
  }

  ghost predicate Spaced(ep: seq<Solicit>, gap: real) {
    forall i, j :: 0 <= i < j < |ep| ==> ep[j].at - ep[i].at >= gap
  }

  ghost predicate AllTo(ep: seq<Solicit>, mac: Option<Mac>) {
    forall i :: 0 <= i < |ep| ==> ep[i].mac == mac
  }

  /** The probe counter counts the solicits of the running episode, which stay within the budget,
      keep the retransmit distance and all go to the same place. */
  ghost predicate Asking(k: Knobs, e: Entry, h: History) {
    && h.episode <= |h.solicits|
    && var ep := EpisodeOf(h);
    && |ep| == e.probes && 1 <= e.probes <= Budget(k, e.state)
    && Spaced(ep, k.retrans) && AllTo(ep, e.mac)
    && ep[|ep| - 1].at == e.changedAt
  }

  ghost predicate EntryInv(k: Knobs, e: Entry, h: History) {
    && |e.queue| <= k.queueLen
    && match e.state
       case INCOMPLETE => e.mac.None? && Asking(k, e, h)
       case PROBE => e.mac.Some? && Asking(k, e, h)
       case REACHABLE | STALE | DELAY | PERMANENT => e.mac.Some?
       case FAILED =>
         // the episode that failed used its whole budget
         && h.episode <= |h.solicits|
         && |EpisodeOf(h)| == (if e.mac.None? then k.maxMulticast else k.maxUnicast)
         && Spaced(EpisodeOf(h), k.retrans) && AllTo(EpisodeOf(h), e.mac)
  }

  ghost predicate SlotInv(k: Knobs, s: Slot) {
    && Conserved(s)
    && (s.entry.Some? ==> EntryInv(k, s.entry.value, s.hist))
  }

  // ----- settling packets

  lemma {:induction false} DeliveredPrefix(accepted: seq<Packet>, more: seq<Packet>, fates: seq<Fate>)
    requires |fates| <= |accepted|
    ensures Delivered(accepted + more, fates) == Delivered(accepted, fates)
  {
    if fates == [] {
    } else {
      DeliveredPrefix(accepted, more, fates[..|fates| - 1]);
    }
  }

  lemma {:induction false} DeliveredDropped(accepted: seq<Packet>, fates: seq<Fate>, reason: Reason, n: nat)
    requires |fates| + n <= |accepted|
    ensures Delivered(accepted, fates + Repeat(Dropped(reason), n)) == Delivered(accepted, fates)
  {
    var fs := fates + Repeat(Dropped(reason), n);
    if n == 0 {
      assert fs == fates;
    } else {
      DeliveredDropped(accepted, fates, reason, n - 1);
      assert fs[..|fs| - 1] == fates + Repeat(Dropped(reason), n - 1);
    }
  }

  lemma {:induction false} DeliveredSent(accepted: seq<Packet>, fates: seq<Fate>, mac: Mac, n: nat)
    requires |fates| + n <= |accepted|
    ensures Delivered(accepted, fates + Repeat(Sent(mac), n))
         == Delivered(accepted, fates) + WithMac(accepted[|fates|..|fates| + n], mac)
  {
    var fs := fates + Repeat(Sent(mac), n);
    if n == 0 {
      assert fs == fates;
    } else {
      DeliveredSent(accepted, fates, mac, n - 1);
      assert fs[..|fs| - 1] == fates + Repeat(Sent(mac), n - 1);
      var m := |fates| + n - 1;
      assert WithMac(accepted[|fates|..m + 1], mac) == WithMac(accepted[|fates|..m], mac) + [(accepted[m], mac)];
    }
  }

  /** Dropping the oldest n queued packets conserves. */
  lemma SettleDropped(s: Slot, n: nat, reason: Reason)
    requires Conserved(s) && n <= |QueueOf(s)|
    ensures var h := Settle(s.hist, n, Dropped(reason));
      && |h.fates| <= |h.accepted| && h.accepted[|h.fates|..] == QueueOf(s)[n..]
      && h.sent == Delivered(h.accepted, h.fates)
  {
    DeliveredDropped(s.hist.accepted, s.hist.fates, reason, n);
  }

  lemma GoneConserved(s: Slot)
    requires Conserved(s)
    ensures Conserved(GoneStep(s))
  {
    SettleDropped(s, |QueueOf(s)|, EntryGone);
  }

  lemma FailConserved(s: Slot, now: real)
    requires Conserved(s) && s.entry.Some?
    ensures Conserved(FailStep(s, now))
  {
    SettleDropped(s, |QueueOf(s)|, Unresolved);
  }

  lemma ReplyConserved(s: Slot, mac: Mac, now: real, hook: bool)
    requires Conserved(s)
    ensures Conserved(ReplyStep(s, mac, now, hook))
  {
    var q := QueueOf(s);
    if hook {
      DeliveredSent(s.hist.accepted, s.hist.fates, mac, |q|);
      assert s.hist.accepted[|s.hist.fates|..|s.hist.fates| + |q|] == q;
    } else {
      SettleDropped(s, |q|, NoHook);
    }
  }

  lemma EnqueueConserved(s: Slot, p: Packet, bound: nat)
    requires Conserved(s) && bound >= 1
    ensures Conserved(EnqueueStep(s, p, bound))
  {
    if s.entry.Some? {
      var q := s.entry.value.queue;
      var over := if |q| >= bound then |q| - bound + 1 else 0;
      SettleDropped(s, over, Overflow);
      var h := Settle(s.hist, over, Dropped(Overflow));
      DeliveredPrefix(h.accepted, [p], h.fates);
      assert (h.accepted + [p])[|h.fates|..] == h.accepted[|h.fates|..] + [p];
    }
  }

  // ----- every operation keeps the slot invariant

  lemma FirstAskedEpisode(h: History, at: real, mac: Option<Mac>)
    ensures FirstAsked(h, at, mac).episode <= |FirstAsked(h, at, mac).solicits|
    ensures EpisodeOf(FirstAsked(h, at, mac)) == [Solicit(at, mac)]
  {
  }

  lemma AskedEpisode(h: History, at: real, mac: Option<Mac>, gap: real)
    requires h.episode < |h.solicits| && gap >= 0.0
    requires Spaced(EpisodeOf(h), gap) && at - h.solicits[|h.solicits| - 1].at >= gap
    ensures EpisodeOf(Asked(h, at, mac)) == EpisodeOf(h) + [Solicit(at, mac)]
    ensures Spaced(EpisodeOf(Asked(h, at, mac)), gap)
  {
    var ep := EpisodeOf(h);
    assert EpisodeOf(Asked(h, at, mac)) == ep + [Solicit(at, mac)];
    forall i | 0 <= i < |ep|
      ensures at - ep[i].at >= gap
    {
      assert ep[|ep| - 1] == h.solicits[|h.solicits| - 1];
      assert i < |ep| - 1 ==> ep[|ep| - 1].at - ep[i].at >= gap;
    }
  }

  lemma FindKeeps(k: Knobs, s: Slot, now: real)
    requires k.Valid() && SlotInv(k, s)
    ensures SlotInv(k, FindStep(s, now).0)
  {
    if s.entry.None? {
      StartKeeps(k, s, Entry(None, INCOMPLETE, now, 1, [], now));
    } else if s.entry.value.state == FAILED {
      StartKeeps(k, s, Entry(None, INCOMPLETE, now, 1, s.entry.value.queue, now));
    }
  }

  /** An entry that starts to be resolved, with what was queued before. */
  lemma StartKeeps(k: Knobs, s: Slot, e: Entry)
    requires k.Valid() && SlotInv(k, s)
    requires e.state == INCOMPLETE && e.mac == None && e.probes == 1 && e.queue == QueueOf(s)
    ensures SlotInv(k, Slot(Some(e), FirstAsked(s.hist, e.changedAt, None)))
  {
    FirstAskedEpisode(s.hist, e.changedAt, None);
  }

  lemma ReplyKeeps(k: Knobs, s: Slot, mac: Mac, now: real)
    requires k.Valid() && SlotInv(k, s)
    ensures SlotInv(k, ReplyStep(s, mac, now, k.flushHook))
  {
    ReplyConserved(s, mac, now, k.flushHook);
  }

  lemma PermanentKeeps(k: Knobs, s: Slot, mac: Mac, now: real)
    requires k.Valid() && SlotInv(k, s)
    ensures SlotInv(k, PermanentStep(s, mac, now))
  {
    GoneConserved(s);
  }

  lemma EnqueueKeeps(k: Knobs, s: Slot, p: Packet)
    requires k.Valid() && SlotInv(k, s)
    ensures SlotInv(k, EnqueueStep(s, p, k.queueLen))
    // no packet is dropped while there is room, and one when there is none
    ensures s.entry.Some? ==>
      var q, q' := QueueOf(s), QueueOf(EnqueueStep(s, p, k.queueLen));
      q' == (if |q| < k.queueLen then q else q[1..]) + [p]
  {
    EnqueueConserved(s, p, k.queueLen);
  }

  lemma TickKeeps(k: Knobs, s: Slot, now: real, reachable: real)
    requires k.Valid() && SlotInv(k, s)
    ensures SlotInv(k, TickStep(k, s, now, reachable))
  {
    if s.entry.Some? {
      var e := s.entry.value;
      if e.state == DELAY {
        ProbeKeeps(k, s, e, now);
      } else if e.state == INCOMPLETE || e.state == PROBE {
        if e.probes >= Budget(k, e.state) {
          FailKeeps(k, s, e, now);
        } else if now - e.changedAt >= k.retrans {
          AskAgainKeeps(k, s, e, now);
        }
      }
    }
  }

  lemma ProbeKeeps(k: Knobs, s: Slot, e: Entry, now: real)
    requires k.Valid() && SlotInv(k, s) && s.entry == Some(e) && e.state == DELAY
    ensures SlotInv(k, Slot(Some(e.(state := PROBE, changedAt := now, probes := 1)), FirstAsked(s.hist, now, e.mac)))
  {
    FirstAskedEpisode(s.hist, now, e.mac);
  }

  lemma FailKeeps(k: Knobs, s: Slot, e: Entry, now: real)
    requires k.Valid() && SlotInv(k, s) && s.entry == Some(e) && (e.state == INCOMPLETE || e.state == PROBE)
    requires e.probes >= Budget(k, e.state)
    ensures SlotInv(k, FailStep(s, now))
  {
    FailConserved(s, now);
    assert EpisodeOf(FailStep(s, now).hist) == EpisodeOf(s.hist);
  }

  lemma AskAgainKeeps(k: Knobs, s: Slot, e: Entry, now: real)
    requires k.Valid() && SlotInv(k, s) && s.entry == Some(e) && (e.state == INCOMPLETE || e.state == PROBE)
    requires e.probes < Budget(k, e.state) && now - e.changedAt >= k.retrans
    ensures SlotInv(k, Slot(Some(e.(probes := e.probes + 1, changedAt := now)), Asked(s.hist, now, SolicitTarget(e))))
  {
    assert EpisodeOf(s.hist)[e.probes - 1] == s.hist.solicits[|s.hist.solicits| - 1];
    AskedEpisode(s.hist, now, e.mac, k.retrans);
  }

  // ----- what conservation means for single packets

  /** The j-th flush carried the accepted packet at position i, and that is the packet's fate. */
  ghost predicate FlushedFrom(accepted: seq<Packet>, fates: seq<Fate>, flush: (Packet, Mac), i: nat) {
    i < |fates| && i < |accepted| && fates[i] == Sent(flush.1) && accepted[i] == flush.0
  }

  ghost predicate Increasing(index: seq<nat>) {
    forall i, j :: 0 <= i < j < |index| ==> index[i] < index[j]
  }

  /** The flushed packets are accepted packets in order: the j-th flush is the packet at index[j],
      and every packet with a flushed fate is among them. */
  ghost predicate InOrder(accepted: seq<Packet>, fates: seq<Fate>, sent: seq<(Packet, Mac)>, index: seq<nat>) {
    && |index| == |sent| && Increasing(index)
    && (forall j :: 0 <= j < |index| ==> FlushedFrom(accepted, fates, sent[j], index[j]))
    && (forall i :: 0 <= i < |fates| && fates[i].Sent? ==> i in index)
  }

  lemma ExtendInOrder(accepted: seq<Packet>, fates: seq<Fate>, sent: seq<(Packet, Mac)>, index: seq<nat>, fate: Fate)
    requires InOrder(accepted, fates, sent, index) && |fates| < |accepted|
    ensures !fate.Sent? ==> InOrder(accepted, fates + [fate], sent, index)
    ensures fate.Sent? ==> InOrder(accepted, fates + [fate], sent + [(accepted[|fates|], fate.mac)], index + [|fates|])
  {
    var fates' := fates + [fate];
    forall j | 0 <= j < |index|
      ensures FlushedFrom(accepted, fates', sent[j], index[j]) && index[j] < |fates|
    {
      assert FlushedFrom(accepted, fates, sent[j], index[j]);
    }
    if fate.Sent? {
      var index' := index + [|fates|];
      assert index'[|index|] == |fates|;
      forall i | 0 <= i < |fates'| && fates'[i].Sent?
        ensures i in index'
      {
        if i < |fates| {
          assert fates[i].Sent? && i in index;
        }
      }
    }
  }

  lemma {:induction false} DeliveredInOrder(accepted: seq<Packet>, fates: seq<Fate>) returns (index: seq<nat>)
    requires |fates| <= |accepted|
    ensures InOrder(accepted, fates, Delivered(accepted, fates), index)
  {
    if fates == [] {
      index := [];
    } else {
      var n := |fates| - 1;
      index := DeliveredInOrder(accepted, fates[..n]);
      ExtendInOrder(accepted, fates[..n], Delivered(accepted, fates[..n]), index, fates[n]);
      assert fates[..n] + [fates[n]] == fates;
      if fates[n].Sent? {
        index := index + [n];
      }
    }
  }

  /** Per address, the flushed packets are a subsequence of the accepted ones, each flushed once. */
  lemma FlushedInOrder(s: Slot) returns (index: seq<nat>)
    requires Conserved(s)
    ensures InOrder(s.hist.accepted, s.hist.fates, s.hist.sent, index)
  {
    index := DeliveredInOrder(s.hist.accepted, s.hist.fates);
  }
}
