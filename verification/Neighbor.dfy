/** Neighbour Unreachability Detection (section 7.3.2 of RFC 4861) for one address: its cache
    entry, the history the outside world sees, and what each cache operation does to both. */
module Neighbor {
  import opened Options

  type Addr = nat
  type Mac = nat
  type Packet = nat

  datatype State = INCOMPLETE | REACHABLE | STALE | DELAY | PROBE | FAILED | PERMANENT

  /** `NeighborEntry`, without the address it is filed under. */
  datatype Entry = Entry(mac: Option<Mac>, state: State, changedAt: real, probes: nat, queue: seq<Packet>, usedAt: real)

  /** The sysctl values, fixed for a run. */
  datatype Knobs = Knobs(
    delay: real, retrans: real, maxMulticast: nat, maxUnicast: nat, queueLen: nat,
    thresh1: nat, thresh2: nat, thresh3: nat, staleTime: real, flushHook: bool)
  {
    /** What the sysctl validators demand. */
    predicate Valid() {
      && retrans > 0.0 && maxMulticast >= 1 && maxUnicast >= 1 && queueLen >= 1
      && thresh1 <= thresh2 <= thresh3
    }
  }

  datatype Reason = Overflow | Unresolved | NoHook | EntryGone

  /** What became of an accepted packet. */
  datatype Fate = Sent(mac: Mac) | Dropped(reason: Reason)

  /** One call of the solicit callback; no MAC means multicast or broadcast. */
  datatype Solicit = Solicit(at: real, mac: Option<Mac>)

  /** What has been observed of one address since the cache was created.
      accepted: every packet taken into its queue; fates: what became of the oldest of them;
      sent: the calls of the flush callback; solicits: the calls of the solicit callback;
      episode: how many of those preceded the latest start of resolution or probing. */
  datatype History = History(accepted: seq<Packet>, fates: seq<Fate>, sent: seq<(Packet, Mac)>,
                             solicits: seq<Solicit>, episode: nat)

  const NO_HISTORY := History([], [], [], [], 0)

  datatype Slot = Slot(entry: Option<Entry>, hist: History)

  function QueueOf(s: Slot): seq<Packet> {
    if s.entry.Some? then s.entry.value.queue else []
  }

  // ----- callbacks and queue bookkeeping

  function Repeat(fate: Fate, n: nat): (r: seq<Fate>)
    ensures |r| == n && forall i :: 0 <= i < n ==> r[i] == fate
  {
    seq(n, i => fate)
  }

  function Settle(h: History, n: nat, fate: Fate): History {
    h.(fates := h.fates + Repeat(fate, n))
  }

  function WithMac(queue: seq<Packet>, mac: Mac): (r: seq<(Packet, Mac)>)
    ensures |r| == |queue| && forall i :: 0 <= i < |r| ==> r[i] == (queue[i], mac)
  {
    seq(|queue|, i requires 0 <= i < |queue| => (queue[i], mac))
  }

  function Asked(h: History, at: real, mac: Option<Mac>): History {
    h.(solicits := h.solicits + [Solicit(at, mac)])
  }

  /** The first solicit of an episode. */
  function FirstAsked(h: History, at: real, mac: Option<Mac>): History {
    Asked(h.(episode := |h.solicits|), at, mac)
  }

  // ----- the operations on one address

  /** `_find_entry` */
  function FindStep(s: Slot, now: real): (Slot, Option<Mac>) {
    match s.entry
    case None =>
      (Slot(Some(Entry(None, INCOMPLETE, now, 1, [], now)), FirstAsked(s.hist, now, None)), None)
    case Some(e0) =>
      var e := e0.(usedAt := now);
      match e.state
      case REACHABLE | DELAY | PROBE | PERMANENT => (Slot(Some(e), s.hist), e.mac)
      case STALE => (Slot(Some(e.(state := DELAY, changedAt := now)), s.hist), e.mac)
      case FAILED =>
        var e' := e.(state := INCOMPLETE, changedAt := now, probes := 1, mac := None);
        (Slot(Some(e'), FirstAsked(s.hist, now, None)), None)
      case INCOMPLETE => (Slot(Some(e), s.hist), None)
  }

  /** `_add_entry` */
  function ReplyStep(s: Slot, mac: Mac, now: real, hook: bool): Slot {
    match s.entry
    case None => Slot(Some(Entry(Some(mac), REACHABLE, now, 0, [], now)), s.hist)
    case Some(e) =>
      if e.state == PERMANENT then s else
        var e' := e.(queue := [], mac := Some(mac), probes := 0, state := REACHABLE, changedAt := now);
        if hook then
          Slot(Some(e'), Settle(s.hist, |e.queue|, Sent(mac)).(sent := s.hist.sent + WithMac(e.queue, mac)))
        else
          Slot(Some(e'), Settle(s.hist, |e.queue|, Dropped(NoHook)))
  }

  /** The entry leaves the cache, by removal, flush, overwriting or garbage collection. */
  function GoneStep(s: Slot): Slot {
    Slot(None, Settle(s.hist, |QueueOf(s)|, Dropped(EntryGone)))
  }

  /** `_add_permanent_entry` */
  function PermanentStep(s: Slot, mac: Mac, now: real): Slot {
    GoneStep(s).(entry := Some(Entry(Some(mac), PERMANENT, now, 0, [], now)))
  }

  /** `_confirm_reachability` */
  function ConfirmStep(s: Slot, now: real): Slot {
    match s.entry
    case None => s
    case Some(e) =>
      if e.state == STALE || e.state == DELAY || e.state == PROBE
      then s.(entry := Some(e.(state := REACHABLE, changedAt := now, probes := 0)))
      else s
  }

  /** `_enqueue_pending`: the newest packets that fit, and no record of a packet without an entry. */
  function EnqueueStep(s: Slot, p: Packet, bound: nat): Slot
    requires bound >= 1
  {
    match s.entry
    case None => s
    case Some(e) =>
      var over := if |e.queue| >= bound then |e.queue| - bound + 1 else 0;
      Slot(Some(e.(queue := e.queue[over..] + [p])),
           Settle(s.hist, over, Dropped(Overflow)).(accepted := s.hist.accepted + [p]))
  }

  /** `_fail_entry` */
  function FailStep(s: Slot, now: real): Slot
    requires s.entry.Some?
  {
    var e := s.entry.value;
    Slot(Some(e.(queue := [], state := FAILED, changedAt := now)), Settle(s.hist, |e.queue|, Dropped(Unresolved)))
  }

  /** How many solicits an episode in the given state may use. */
  function Budget(k: Knobs, state: State): nat {
    if state == INCOMPLETE then k.maxMulticast else k.maxUnicast
  }

  /** Unresolved addresses are asked for by multicast, known ones are probed directly. */
  function SolicitTarget(e: Entry): Option<Mac> {
    if e.state == INCOMPLETE then None else e.mac
  }

  /** The timer-driven transition of one entry in `run_maintenance_once`. */
  function TickStep(k: Knobs, s: Slot, now: real, reachable: real): Slot {
    match s.entry
    case None => s
    case Some(e) =>
      var age := now - e.changedAt;
      match e.state
      case REACHABLE =>
        if age >= reachable then s.(entry := Some(e.(state := STALE, changedAt := now))) else s
      case DELAY =>
        if age >= k.delay
        then Slot(Some(e.(state := PROBE, changedAt := now, probes := 1)), FirstAsked(s.hist, now, e.mac))
        else s
      case INCOMPLETE | PROBE =>
        if e.probes >= Budget(k, e.state) then FailStep(s, now)
        else if age >= k.retrans
        then Slot(Some(e.(probes := e.probes + 1, changedAt := now)), Asked(s.hist, now, SolicitTarget(e)))
        else s
      case STALE | FAILED | PERMANENT => s
  }
}
