/** Duplicate Address Detection slots: conflict signalling with loop-back filtering
    (section 4.2 of RFC 7527). */
module DadRegistry {
  import opened Options

  type Addr = nat
  type Mac = nat
  type Nonce = nat

  datatype SignalResult = NOT_DAD | LOOP_HAIRPIN | SIGNALED

  /** One call on the registry. */
  datatype Op = Install(a: Addr) | Teardown(a: Addr) | Register(a: Addr, nonce: Nonce)
              | Conflict(a: Addr, inbound: Option<Nonce>)

  // ----- what the calls so far mean for one candidate

  predicate EndsClaim(op: Op, a: Addr) {
    op == Install(a) || op == Teardown(a)
  }

  /** The claim of a that started with call i is still open. */
  ghost predicate Open(log: seq<Op>, i: nat, a: Addr) {
    i < |log| && log[i] == Install(a) && forall j :: i < j < |log| ==> !EndsClaim(log[j], a)
  }

  ghost predicate HasSlot(log: seq<Op>, a: Addr) {
    exists i: nat :: Open(log, i, a)
  }

  /** nonce was registered for a after call i and before call j. */
  ghost predicate RegisteredBetween(log: seq<Op>, i: nat, j: nat, a: Addr, nonce: Nonce) {
    exists m :: i < m < j && m < |log| && log[m] == Register(a, nonce)
  }

  /** Call j reports a conflict for a that is not the echo of a nonce registered since call i. */
  ghost predicate RealConflict(log: seq<Op>, i: nat, j: nat, a: Addr) {
    && i < j < |log| && log[j].Conflict? && log[j].a == a
    && (log[j].inbound.Some? ==> !RegisteredBetween(log, i, j, a, log[j].inbound.value))
  }

  /** Since its last install, with no later teardown, a real conflict was reported for a. */
  ghost predicate Signalled(log: seq<Op>, a: Addr) {
    exists i: nat, j: nat :: Open(log, i, a) && RealConflict(log, i, j, a)
  }

  /** nonce is registered in the open claim of a. */
  ghost predicate Registered(log: seq<Op>, a: Addr, nonce: Nonce) {
    exists i: nat :: Open(log, i, a) && RegisteredBetween(log, i, |log|, a, nonce)
  }

  // ----- one more call

  lemma OpenNext(log: seq<Op>, op: Op, a: Addr)
    ensures forall i: nat :: Open(log + [op], i, a) <==>
      (op == Install(a) && i == |log|) || (!EndsClaim(op, a) && Open(log, i, a))
  {
    var log' := log + [op];
    assert log'[|log|] == op && forall j :: 0 <= j < |log| ==> log'[j] == log[j];
    forall i: nat | !EndsClaim(op, a) && Open(log, i, a)
      ensures Open(log', i, a)
    {
      forall j | i < j < |log'|
        ensures !EndsClaim(log'[j], a)
      {
        assert j < |log| ==> log'[j] == log[j];
      }
    }
    forall i: nat | Open(log', i, a) && i < |log|
      ensures !EndsClaim(op, a) && Open(log, i, a)
    {
      assert !EndsClaim(log'[|log|], a);
      forall j | i < j < |log|
        ensures !EndsClaim(log[j], a)
      {
        assert log'[j] == log[j];
      }
    }
  }

  lemma OpenUnique(log: seq<Op>, i: nat, i': nat, a: Addr)
    requires Open(log, i, a) && Open(log, i', a)
    ensures i == i'
  {
    assert EndsClaim(log[i], a) && EndsClaim(log[i'], a);
  }

  lemma HasSlotNext(log: seq<Op>, op: Op, a: Addr)
    ensures HasSlot(log + [op], a) <==> op == Install(a) || (op != Teardown(a) && HasSlot(log, a))
  {
    OpenNext(log, op, a);
    if op == Install(a) {
      assert Open(log + [op], |log|, a);
    } else if HasSlot(log, a) && op != Teardown(a) {
      var i: nat :| Open(log, i, a);
      assert Open(log + [op], i, a);
    }
  }

  lemma RegisteredNext(log: seq<Op>, op: Op, a: Addr, nonce: Nonce)
    ensures Registered(log + [op], a, nonce) <==>
      !EndsClaim(op, a) && HasSlot(log, a) && (Registered(log, a, nonce) || op == Register(a, nonce))
  {
    OpenNext(log, op, a);
    var log' := log + [op];
    assert log'[|log|] == op && forall j :: 0 <= j < |log| ==> log'[j] == log[j];
    if Registered(log', a, nonce) {
      var i: nat :| Open(log', i, a) && RegisteredBetween(log', i, |log'|, a, nonce);
      var m :| i < m < |log'| && log'[m] == Register(a, nonce);
      assert Open(log, i, a);
      assert m < |log| ==> RegisteredBetween(log, i, |log|, a, nonce);
    }
    if !EndsClaim(op, a) && HasSlot(log, a) {
      var i: nat :| Open(log, i, a) && (Registered(log, a, nonce) ==> RegisteredBetween(log, i, |log|, a, nonce)) by {
        OpenForRegistered(log, a, nonce);
      }
      assert Open(log', i, a);
      if op == Register(a, nonce) {
        assert log'[|log|] == Register(a, nonce);
        assert RegisteredBetween(log', i, |log'|, a, nonce);
      } else if Registered(log, a, nonce) {
        var m :| i < m < |log| && log[m] == Register(a, nonce);
        assert log'[m] == Register(a, nonce);
        assert RegisteredBetween(log', i, |log'|, a, nonce);
      }
    }
  }

  lemma OpenForRegistered(log: seq<Op>, a: Addr, nonce: Nonce)
    requires HasSlot(log, a)
    ensures exists i: nat ::
      Open(log, i, a) && (Registered(log, a, nonce) ==> RegisteredBetween(log, i, |log|, a, nonce))
  {
    if Registered(log, a, nonce) {
      var i: nat :| Open(log, i, a) && RegisteredBetween(log, i, |log|, a, nonce);
    } else {
      var i: nat :| Open(log, i, a);
    }
  }

  /** The call reports a conflict for a that is no echo. */
  ghost predicate Reports(log: seq<Op>, op: Op, a: Addr) {
    op.Conflict? && op.a == a && (op.inbound.Some? ==> !Registered(log, a, op.inbound.value))
  }

  lemma RealConflictNext(log: seq<Op>, op: Op, i: nat, a: Addr)
    requires Open(log, i, a)
    ensures forall j: nat :: j < |log| ==> (RealConflict(log + [op], i, j, a) <==> RealConflict(log, i, j, a))
    ensures RealConflict(log + [op], i, |log|, a) <==> Reports(log, op, a)
  {
    var log' := log + [op];
    assert log'[|log|] == op && forall j :: 0 <= j < |log| ==> log'[j] == log[j];
    forall j: nat, nonce | j <= |log|
      ensures RegisteredBetween(log', i, j, a, nonce) <==> RegisteredBetween(log, i, j, a, nonce)
    {
      if RegisteredBetween(log', i, j, a, nonce) {
        var m :| i < m < j && m < |log'| && log'[m] == Register(a, nonce);
        assert log[m] == log'[m];
      }
      if RegisteredBetween(log, i, j, a, nonce) {
        var m :| i < m < j && m < |log| && log[m] == Register(a, nonce);
        assert log'[m] == log[m];
      }
    }
    forall nonce
      ensures Registered(log, a, nonce) <==> RegisteredBetween(log, i, |log|, a, nonce)
    {
      if Registered(log, a, nonce) {
        var i': nat :| Open(log, i', a) && RegisteredBetween(log, i', |log|, a, nonce);
        OpenUnique(log, i, i', a);
      }
    }
  }

  lemma SignalledNext(log: seq<Op>, op: Op, a: Addr)
    ensures Signalled(log + [op], a) <==>
      !EndsClaim(op, a) && HasSlot(log, a) && (Signalled(log, a) || Reports(log, op, a))
  {
    OpenNext(log, op, a);
    var log' := log + [op];
    if Signalled(log', a) {
      var i: nat, j: nat :| Open(log', i, a) && RealConflict(log', i, j, a);
      assert Open(log, i, a);
      RealConflictNext(log, op, i, a);
      assert j < |log| ==> RealConflict(log, i, j, a);
    }
    if !EndsClaim(op, a) && HasSlot(log, a) {
      if Signalled(log, a) {
        var i: nat, j: nat :| Open(log, i, a) && RealConflict(log, i, j, a);
        RealConflictNext(log, op, i, a);
        assert Open(log', i, a) && RealConflict(log', i, j, a);
      } else if Reports(log, op, a) {
        var i: nat :| Open(log, i, a);
        RealConflictNext(log, op, i, a);
        assert Open(log', i, a) && RealConflict(log', i, |log|, a);
      }
    }
  }

  /** Echoes of own nonces, registrations and calls for other candidates leave a candidate's signal alone. */
  lemma SignalUndisturbed(log: seq<Op>, op: Op, a: Addr)
    requires op.a != a || op.Register? || (op.Conflict? && op.inbound.Some? && Registered(log, a, op.inbound.value))
    ensures Signalled(log + [op], a) <==> Signalled(log, a)
  {
    SignalledNext(log, op, a);
    if Signalled(log, a) {
      var i: nat, j: nat :| Open(log, i, a) && RealConflict(log, i, j, a);
    }
  }

  // ----- one slot

  /** The registered nonces of a candidate and whether its event is set. */
  datatype Slot = Slot(nonces: set<Nonce>, isSet: bool)

  function AfterOp(slot: Option<Slot>, op: Op, a: Addr): Option<Slot> {
    if op == Install(a) then Some(Slot({}, false))
    else if op == Teardown(a) then None
    else if slot.None? || op.a != a then slot
    else match op
      case Register(_, nonce) => Some(slot.value.(nonces := slot.value.nonces + {nonce}))
      case Conflict(_, inbound) =>
        if inbound.Some? && inbound.value in slot.value.nonces then slot else Some(slot.value.(isSet := true))
      case _ => slot
  }

  /** The slot is what the calls so far make of the candidate. */
  ghost predicate Means(log: seq<Op>, a: Addr, slot: Option<Slot>) {
    && (slot.Some? <==> HasSlot(log, a))
    && (slot.Some? ==> forall n :: n in slot.value.nonces <==> Registered(log, a, n))
    && (Signalled(log, a) <==> slot.Some? && slot.value.isSet)
  }

  lemma MeansNext(log: seq<Op>, op: Op, a: Addr, slot: Option<Slot>)
    requires Means(log, a, slot)
    ensures Means(log + [op], a, AfterOp(slot, op, a))
  {
    HasSlotNext(log, op, a);
    SignalledNext(log, op, a);
    forall n
      ensures Registered(log + [op], a, n) <==>
        !EndsClaim(op, a) && HasSlot(log, a) && (Registered(log, a, n) || op == Register(a, n))
    {
      RegisteredNext(log, op, a, n);
    }
  }

  lemma NothingYet(a: Addr)
    ensures Means([], a, None)
  {
  }

  // ----- the registry

  /** `asyncio.Event` */
  class Event {
    var isSet: bool

    constructor ()
      ensures !isSet
    {
      isSet := false;
    }
  }

  class DadSlotRegistry {
    var events: map<Addr, Event>
    var nonces: map<Addr, set<Nonce>>
    var peerInfo: map<Addr, Option<Mac>>
    /** Every call so far. */
    ghost var log: seq<Op>

    /** The three maps have the same keys, and no two candidates share an event. */
    ghost predicate Consistent()
      reads this
    {
      && events.Keys == nonces.Keys == peerInfo.Keys
      && forall a, b :: a in events && b in events && a != b ==> events[a] != events[b]
    }

    ghost function SlotOf(a: Addr): Option<Slot>
      requires Consistent()
      reads this, events.Values
    {
      if a in events then Some(Slot(nonces[a], events[a].isSet)) else None
    }

    /** Every slot is what the calls so far make of its candidate. */
    ghost predicate Valid()
      reads this, events.Values
    {
      Consistent() && forall a :: Means(log, a, SlotOf(a))
    }

    constructor ()
      ensures Valid() && log == [] && events == map[]
    {
      events, nonces, peerInfo, log := map[], map[], map[], [];
      new;
      forall a
        ensures Means(log, a, SlotOf(a))
      {
        NothingYet(a);
      }
    }

    /** Replaces any earlier slot of the candidate; its event is left as it was. */
    method Install(candidate: Addr) returns (event: Event)
      requires Valid()
      modifies this
      ensures Valid() && log == old(log) + [Op.Install(candidate)]
      ensures fresh(event) && !event.isSet && events == old(events)[candidate := event]
      ensures nonces == old(nonces)[candidate := {}] && peerInfo == old(peerInfo)[candidate := None]
    {
      event := new Event();
      events := events[candidate := event];
      nonces := nonces[candidate := {}];
      peerInfo := peerInfo[candidate := None];
      log := log + [Op.Install(candidate)];
      assert Consistent();
      Followed(Op.Install(candidate));
    }

    method Teardown(candidate: Addr)
      requires Valid()
      modifies this
      ensures Valid() && log == old(log) + [Op.Teardown(candidate)]
      ensures events == old(events) - {candidate} && nonces == old(nonces) - {candidate}
      ensures peerInfo == old(peerInfo) - {candidate}
    {
      events := events - {candidate};
      nonces := nonces - {candidate};
      peerInfo := peerInfo - {candidate};
      log := log + [Op.Teardown(candidate)];
      Followed(Op.Teardown(candidate));
    }

    method RegisterNonce(candidate: Addr, nonce: Nonce)
      requires Valid()
      modifies this
      ensures Valid() && log == old(log) + [Register(candidate, nonce)]
      ensures events == old(events) && peerInfo == old(peerInfo)
    {
      if candidate in nonces {
        nonces := nonces[candidate := nonces[candidate] + {nonce}];
      }
      log := log + [Register(candidate, nonce)];
      Followed(Register(candidate, nonce));
    }

    /** True exactly when a real conflict was reported in the candidate's open claim. */
    method HasSignal(candidate: Addr) returns (r: bool)
      requires Valid()
      ensures r <==> Signalled(log, candidate)
    {
      assert Means(log, candidate, SlotOf(candidate));
      r := candidate in events && events[candidate].isSet;
    }

    method TrySignalConflict(candidate: Addr, peer: Option<Mac>, inbound: Option<Nonce>) returns (r: SignalResult)
      requires Valid()
      modifies this, events.Values
      ensures Valid() && log == old(log) + [Conflict(candidate, inbound)] && events == old(events)
      ensures r == NOT_DAD <==> !HasSlot(old(log), candidate)
      ensures r == SIGNALED <==>
        HasSlot(old(log), candidate) && Reports(old(log), Conflict(candidate, inbound), candidate)
      ensures peerInfo == if r == SIGNALED then old(peerInfo)[candidate := peer] else old(peerInfo)
    {
      assert Means(log, candidate, SlotOf(candidate));
      if candidate !in events {
        r := NOT_DAD;
      } else if inbound.Some? && inbound.value in nonces[candidate] {
        r := LOOP_HAIRPIN;
      } else {
        peerInfo := peerInfo[candidate := peer];
        events[candidate].isSet := true;
        r := SIGNALED;
      }
      log := log + [Conflict(candidate, inbound)];
      Followed(Conflict(candidate, inbound));
    }

    /** Once every slot has followed the call, the registry is valid for the longer log. */
    twostate lemma Followed(op: Op)
      requires old(Valid()) && Consistent() && log == old(log) + [op]
      requires forall a :: SlotOf(a) == AfterOp(old(SlotOf(a)), op, a)
      ensures Valid()
    {
      forall a
        ensures Means(log, a, SlotOf(a))
      {
        MeansNext(old(log), op, a, old(SlotOf(a)));
      }
    }
  }
}
