/** The three-tier garbage collector of the neighbour cache. */
module NeighborGc {
  import opened Options
  import opened Neighbor
  import opened Sorting

  type Table = map<Addr, Entry>

  predicate Evictable(e: Entry) {
    e.state != PERMANENT && (e.state == FAILED || e.queue == [])
  }

  // ----- what a pass does

  function FailedIn(m: Table): set<Addr> {
    set a | a in m && m[a].state == FAILED
  }

  function AgedIn(m: Table, now: real, staleTime: real): set<Addr> {
    set a | a in m && Evictable(m[a]) && m[a].state == STALE && now - m[a].changedAt >= staleTime
  }

  function Excess(size: int, limit: nat): nat {
    if size > limit then size - limit else 0
  }

  function EvictCount(candidates: nat, excess: nat): nat {
    if candidates <= excess then candidates else excess
  }

  /** The two times the collector sorts by. */
  datatype Stamp = Changed | Used

  function TimeOf(e: Entry, key: Stamp): real {
    match key
    case Changed => e.changedAt
    case Used => e.usedAt
  }

  /** No candidate left behind has an earlier time than one that was picked. */
  ghost predicate OldestFirst(m: Table, cands: set<Addr>, picked: set<Addr>, key: Stamp)
    requires cands <= m.Keys
  {
    && picked <= cands
    && forall x, y :: x in picked && y in cands && y !in picked ==> TimeOf(m[x], key) <= TimeOf(m[y], key)
  }

  /** The evictable entries the first two tiers leave. */
  function LeftIn(m: Table, tier2: set<Addr>): set<Addr> {
    set a | a in m && Evictable(m[a]) && m[a].state != FAILED && a !in tier2
  }

  /** Just enough aged STALE entries to reach thresh2, then just enough evictable entries to reach
      thresh3, oldest first in both. */
  ghost predicate Chosen(k: Knobs, m: Table, now: real, tier2: set<Addr>, tier3: set<Addr>) {
    var aged := AgedIn(m, now, k.staleTime);
    var left := LeftIn(m, tier2);
    var size1 := |m| - |FailedIn(m)|;
    && OldestFirst(m, aged, tier2, Changed) && |tier2| == EvictCount(|aged|, Excess(size1, k.thresh2))
    && OldestFirst(m, left, tier3, Used) && |tier3| == EvictCount(|left|, Excess(size1 - |tier2|, k.thresh3))
  }

  /** The FAILED entries and the chosen ones go, and nothing else happens. */
  ghost predicate Leaves(m: Table, m': Table, tier2: set<Addr>, tier3: set<Addr>) {
    && (forall a :: a in m' <==> a in m && m[a].state != FAILED && a !in tier2 && a !in tier3)
    && (forall a :: a in m' ==> m'[a] == m[a])
    && |m'| == |m| - |FailedIn(m)| - |tier2| - |tier3|
  }

  /** The three tiers. */
  ghost predicate Tiers(k: Knobs, m: Table, m': Table, now: real, tier2: set<Addr>, tier3: set<Addr>) {
    Chosen(k, m, now, tier2, tier3) && Leaves(m, m', tier2, tier3)
  }

  ghost predicate Collected(k: Knobs, m: Table, m': Table, now: real) {
    if |m| <= k.thresh1 then m' == m
    else exists tier2, tier3 :: Tiers(k, m, m', now, tier2, tier3)
  }

  // ----- sorting candidates

  ghost predicate Distinct(order: seq<Addr>) {
    forall i, j :: 0 <= i < j < |order| ==> order[i] != order[j]
  }

  function Members(order: seq<Addr>): set<Addr> {
    set a | a in order
  }

  lemma {:induction false} MembersCount(order: seq<Addr>)
    ensures |Members(order)| <= |order|
    ensures |Members(order)| == |order| <==> Distinct(order)
  {
    if order == [] {
    } else {
      var n := |order| - 1;
      MembersCount(order[..n]);
      assert order == order[..n] + [order[n]];
      assert Members(order) == Members(order[..n]) + {order[n]};
      assert order[n] in Members(order[..n]) <==> order[n] in order[..n];
    }
  }

  predicate NotLater(times: map<Addr, real>, x: Addr, y: Addr) {
    (if x in times then times[x] else 0.0) <= (if y in times then times[y] else 0.0)
  }

  /** order lists the keys of times, each once, oldest first. */
  ghost predicate InTimeOrder(times: map<Addr, real>, order: seq<Addr>) {
    && Distinct(order) && Members(order) == times.Keys
    && forall i, j :: 0 <= i < j < |order| ==> NotLater(times, order[i], order[j])
  }

  /** `sorted(candidates, key=...)`, the candidates taken in any order. */
  method OrderByTime(times: map<Addr, real>) returns (order: seq<Addr>)
    ensures InTimeOrder(times, order)
  {
    var todo := times.Keys;
    var listed: seq<Addr> := [];
    while todo != {}
      invariant Distinct(listed) && Members(listed) == times.Keys - todo && todo <= times.Keys
      decreases |todo|
    {
      var a :| a in todo;
      assert a !in Members(listed);
      assert Members(listed + [a]) == Members(listed) + {a};
      listed := listed + [a];
      todo := todo - {a};
    }
    order := Sort(listed, (x, y) => NotLater(times, x, y));
    SortedInTimeOrder(times, listed);
  }

  lemma SortedInTimeOrder(times: map<Addr, real>, listed: seq<Addr>)
    requires Distinct(listed) && Members(listed) == times.Keys
    ensures InTimeOrder(times, Sort(listed, (x, y) => NotLater(times, x, y)))
  {
    var le := (x, y) => NotLater(times, x, y);
    var order := Sort(listed, le);
    SortSorted(listed, le);
    SortMembers(listed, le);
    assert Members(order) == Members(listed);
    MembersCount(listed);
    MembersCount(order);
    forall i, j | 0 <= i < j < |order|
      ensures NotLater(times, order[i], order[j])
    {
      assert le(order[i], order[j]);
    }
  }

  // ----- evicting in order

  lemma EvictNext(m: Table, order: seq<Addr>, i: nat)
    requires Distinct(order) && Members(order) <= m.Keys && i < |order|
    ensures m - Members(order[..i]) - {order[i]} == m - Members(order[..i + 1])
    ensures |m - Members(order[..i + 1])| == |m - Members(order[..i])| - 1
  {
    var a, m' := order[i], m - Members(order[..i]);
    assert order[..i + 1] == order[..i] + [a];
    assert Members(order[..i + 1]) == Members(order[..i]) + {a};
    assert a in Members(order) && a !in Members(order[..i]);
    assert m - Members(order[..i + 1]) == m' - {a};
    assert (m' - {a}).Keys == m'.Keys - {a};
  }

  /** Delete the listed entries one by one until the table is no larger than limit. */
  method EvictUntil(m: Table, order: seq<Addr>, limit: nat) returns (m': Table)
    requires Distinct(order) && Members(order) <= m.Keys
    ensures m' == m - Members(order[..EvictCount(|order|, Excess(|m|, limit))])
  {
    m' := m;
    var size := |m|;
    var i := 0;
    assert m - Members(order[..0]) == m;
    while i < |order| && size > limit
      invariant 0 <= i <= |order| && size == |m'| == |m| - i
      invariant size < limit ==> i == 0
      invariant m' == m - Members(order[..i])
    {
      EvictNext(m, order, i);
      m' := m' - {order[i]};
      size := size - 1;
      i := i + 1;
    }
    assert i == EvictCount(|order|, Excess(|m|, limit));
  }

  /** picked are the n candidates with the smallest times, or all of them if there are fewer. */
  ghost predicate Oldest(times: map<Addr, real>, picked: set<Addr>, n: nat) {
    && picked <= times.Keys
    && |picked| == EvictCount(|times|, n)
    && forall x, y :: x in picked && y in times.Keys - picked ==> times[x] <= times[y]
  }

  /** A prefix of the sorted candidates holds the oldest ones. */
  lemma PrefixIsOldest(times: map<Addr, real>, order: seq<Addr>, n: nat)
    requires InTimeOrder(times, order)
    ensures Oldest(times, Members(order[..EvictCount(|order|, n)]), n)
  {
    var c := EvictCount(|order|, n);
    var picked := Members(order[..c]);
    MembersCount(order);
    MembersCount(order[..c]);
    assert picked <= Members(order);
    assert forall t :: 0 <= t < c ==> order[..c][t] == order[t] && order[t] in picked;
    forall x, y | x in picked && y in times.Keys - picked
      ensures times[x] <= times[y]
    {
      var i :| 0 <= i < c && order[i] == x;
      assert y in Members(order);
      var j :| 0 <= j < |order| && order[j] == y;
      assert NotLater(times, order[i], order[j]);
    }
  }

  /** One tier: nothing when the table is within the limit, else the oldest candidates until it is. */
  method EvictOldest(m: Table, times: map<Addr, real>, limit: nat) returns (m': Table, ghost picked: set<Addr>)
    requires times.Keys <= m.Keys
    ensures Oldest(times, picked, Excess(|m|, limit)) && m' == m - picked
  {
    if |m| <= limit {
      picked := {};
      m' := m;
      NoneOldest(times);
      assert m - {} == m;
      return;
    }
    var order := OrderByTime(times);
    m' := EvictUntil(m, order, limit);
    PrefixIsOldest(times, order, Excess(|m|, limit));
    picked := Members(order[..EvictCount(|order|, Excess(|m|, limit))]);
  }

  /** `_gc_pass` */
  method GcPass(k: Knobs, m: Table, now: real) returns (m': Table)
    ensures Collected(k, m, m', now)
  {
    if |m| <= k.thresh1 {
      return m;
    }
    ghost var failed, tier2, tier3: set<Addr>;
    m', failed := EvictOldest(m, FailTimes(m), 0);
    AllFailedGo(m, FailTimes(m), failed);
    ghost var m1 := m';
    m', tier2 := EvictOldest(m', AgedTimes(m', now, k.staleTime), k.thresh2);
    ghost var m2 := m';
    m', tier3 := EvictOldest(m', UseTimes(m'), k.thresh3);
    TiersHold(k, m, m1, m2, m', now, tier2, tier3);
  }

  lemma TiersHold(k: Knobs, m: Table, m1: Table, m2: Table, m': Table, now: real, tier2: set<Addr>, tier3: set<Addr>)
    requires m1 == m - FailedIn(m) && m2 == m1 - tier2 && m' == m2 - tier3
    requires Oldest(AgedTimes(m1, now, k.staleTime), tier2, Excess(|m1|, k.thresh2))
    requires Oldest(UseTimes(m2), tier3, Excess(|m2|, k.thresh3))
    ensures Tiers(k, m, m', now, tier2, tier3)
  {
    TiersChosen(k, m, m1, m2, now, tier2, tier3);
    Remaining(m, m1, m2, m', tier2, tier3);
  }

  lemma TiersChosen(k: Knobs, m: Table, m1: Table, m2: Table, now: real, tier2: set<Addr>, tier3: set<Addr>)
    requires m1 == m - FailedIn(m) && m2 == m1 - tier2
    requires Oldest(AgedTimes(m1, now, k.staleTime), tier2, Excess(|m1|, k.thresh2))
    requires Oldest(UseTimes(m2), tier3, Excess(|m2|, k.thresh3))
    ensures Chosen(k, m, now, tier2, tier3) && tier2 <= m1.Keys && tier3 <= m2.Keys
  {
    AgedTier(k, m, now, m1, tier2);
    CapTier(m, m1, m2, tier2, tier3);
    SizeAfter(m, FailedIn(m));
    SizeAfter(m1, tier2);
  }

  /** What is left after three removals. */
  lemma Remaining(m: Table, m1: Table, m2: Table, m': Table, tier2: set<Addr>, tier3: set<Addr>)
    requires m1 == m - FailedIn(m) && m2 == m1 - tier2 && m' == m2 - tier3
    requires tier2 <= m1.Keys && tier3 <= m2.Keys
    ensures Leaves(m, m', tier2, tier3)
  {
    SizeAfter(m, FailedIn(m));
    SizeAfter(m1, tier2);
    SizeAfter(m2, tier3);
  }

  /** The candidates of each tier, with the times they are sorted by. */
  function FailTimes(m: Table): map<Addr, real> {
    map a | a in m && m[a].state == FAILED :: m[a].changedAt
  }

  function AgedTimes(m: Table, now: real, staleTime: real): map<Addr, real> {
    map a | a in m && Evictable(m[a]) && m[a].state == STALE && now - m[a].changedAt >= staleTime :: m[a].changedAt
  }

  function UseTimes(m: Table): map<Addr, real> {
    map a | a in m && Evictable(m[a]) :: m[a].usedAt
  }

  lemma SizeAfter(m: Table, gone: set<Addr>)
    requires gone <= m.Keys
    ensures |m - gone| == |m| - |gone|
  {
    assert (m - gone).Keys == m.Keys - gone;
    assert m.Keys == (m.Keys - gone) + gone;
  }

  lemma AgedTier(k: Knobs, m: Table, now: real, m1: Table, tier2: set<Addr>)
    requires m1 == m - FailedIn(m)
    requires Oldest(AgedTimes(m1, now, k.staleTime), tier2, Excess(|m1|, k.thresh2))
    ensures OldestFirst(m, AgedIn(m, now, k.staleTime), tier2, Changed)
    ensures |tier2| == EvictCount(|AgedIn(m, now, k.staleTime)|, Excess(|m1|, k.thresh2))
    ensures tier2 <= m1.Keys
  {
    var ages := AgedTimes(m1, now, k.staleTime);
    assert ages.Keys == AgedIn(m, now, k.staleTime);
    forall x, y | x in tier2 && y in AgedIn(m, now, k.staleTime) && y !in tier2
      ensures m[x].changedAt <= m[y].changedAt
    {
      assert ages[x] <= ages[y];
    }
  }

  lemma CapTier(m: Table, m1: Table, m2: Table, tier2: set<Addr>, tier3: set<Addr>)
    requires m1 == m - FailedIn(m) && m2 == m1 - tier2
    requires tier3 <= UseTimes(m2).Keys
    requires forall x, y :: x in tier3 && y in UseTimes(m2).Keys - tier3 ==> UseTimes(m2)[x] <= UseTimes(m2)[y]
    ensures OldestFirst(m, LeftIn(m, tier2), tier3, Used)
    ensures |LeftIn(m, tier2)| == |UseTimes(m2)|
    ensures tier3 <= m2.Keys
  {
    var uses := UseTimes(m2);
    assert uses.Keys == LeftIn(m, tier2);
    forall x, y | x in tier3 && y in LeftIn(m, tier2) && y !in tier3
      ensures m[x].usedAt <= m[y].usedAt
    {
      assert uses[x] <= uses[y];
    }
  }

  lemma NoneOldest(times: map<Addr, real>)
    ensures Oldest(times, {}, 0)
  {
  }

  /** The first tier never runs out of table: all FAILED entries go. */
  lemma AllFailedGo(m: Table, times: map<Addr, real>, picked: set<Addr>)
    requires times.Keys == FailedIn(m) && Oldest(times, picked, Excess(|m|, 0))
    ensures picked == FailedIn(m)
  {
    SubsetCount(times.Keys, m.Keys);
    SubsetFull(picked, times.Keys);
  }

  lemma {:induction false} SubsetCount(a: set<Addr>, b: set<Addr>)
    requires a <= b
    ensures |a| <= |b|
  {
    assert b == a + (b - a);
  }

  lemma SubsetFull(a: set<Addr>, b: set<Addr>)
    requires a <= b && |a| == |b|
    ensures a == b
  {
    assert b == a + (b - a);
  }

  // ----- what a pass guarantees

  /** Never evicted: operator-configured entries and unresolved traffic. */
  predicate Protected(e: Entry) {
    e.state == PERMANENT || (e.state != FAILED && e.queue != [])
  }

  /** Survivors are unchanged, and protected entries survive. */
  lemma ProtectedSurvive(k: Knobs, m: Table, m': Table, now: real)
    requires Collected(k, m, m', now)
    ensures forall a :: a in m' ==> a in m && m'[a] == m[a]
    ensures forall a :: a in m && Protected(m[a]) ==> a in m'
  {
    if |m| > k.thresh1 {
      var tier2, tier3 :| Tiers(k, m, m', now, tier2, tier3);
    }
  }

  /** After a pass the table is within the hard cap, or everything left is protected. */
  lemma WithinCapOrProtected(k: Knobs, m: Table, m': Table, now: real)
    requires k.Valid() && Collected(k, m, m', now)
    ensures |m'| <= k.thresh3 || forall a :: a in m' ==> Protected(m'[a])
  {
    if |m| > k.thresh1 {
      var tier2, tier3 :| Tiers(k, m, m', now, tier2, tier3);
      if |tier3| == |LeftIn(m, tier2)| {
        SubsetFull(tier3, LeftIn(m, tier2));
      }
    }
  }

  /** Above the first threshold no FAILED entry is left, below it nothing is touched. */
  lemma FailedAreEvicted(k: Knobs, m: Table, m': Table, now: real)
    requires Collected(k, m, m', now)
    ensures |m| <= k.thresh1 ==> m' == m
    ensures |m| > k.thresh1 ==> forall a :: a in m' ==> m'[a].state != FAILED
  {
  }

  /** A working entry is evicted only under pressure: the pass never goes below the second threshold
      for it, nor below the third unless it is STALE past its time. */
  lemma StopsAtThreshold(k: Knobs, m: Table, m': Table, now: real, a: Addr)
    requires k.Valid() && Collected(k, m, m', now)
    requires a in m && a !in m' && m[a].state != FAILED
    ensures |m'| >= k.thresh2
    ensures !(m[a].state == STALE && now - m[a].changedAt >= k.staleTime) ==> |m'| >= k.thresh3
  {
    var tier2, tier3 :| Tiers(k, m, m', now, tier2, tier3);
    assert a in tier2 || a in tier3;
    assert a in tier3 ==> |tier3| > 0;
    assert a in tier2 ==> |tier2| > 0;
  }

  /** Evictions at the hard cap are least recently used: no evictable survivor was used earlier. */
  lemma CapEvictsLeastRecentlyUsed(k: Knobs, m: Table, m': Table, now: real, a: Addr, b: Addr)
    requires Collected(k, m, m', now)
    requires a in m && a !in m' && m[a].state != FAILED
    requires !(m[a].state == STALE && now - m[a].changedAt >= k.staleTime)
    requires b in m' && Evictable(m'[b])
    ensures m[a].usedAt <= m[b].usedAt
  {
    var tier2, tier3 :| Tiers(k, m, m', now, tier2, tier3);
    assert a in tier3 && b in LeftIn(m, tier2) && b !in tier3;
  }

  /** The hard cap comes into play only once every aged STALE entry is gone. */
  lemma CapComesLast(k: Knobs, m: Table, m': Table, now: real, tier2: set<Addr>, tier3: set<Addr>)
    requires k.Valid() && Tiers(k, m, m', now, tier2, tier3) && tier3 != {}
    ensures tier2 == AgedIn(m, now, k.staleTime)
  {
    if |tier2| == |AgedIn(m, now, k.staleTime)| {
      SubsetFull(tier2, AgedIn(m, now, k.staleTime));
    }
  }

  /** Above the first threshold a pass gets down to the second, or leaves no STALE entry that is past
      its time and has no packet waiting. */
  lemma AgedAreEvicted(k: Knobs, m: Table, m': Table, now: real)
    requires k.Valid() && Collected(k, m, m', now) && |m| > k.thresh1
    ensures |m'| <= k.thresh2 || forall a :: a in m' ==>
      !(m'[a].state == STALE && m'[a].queue == [] && now - m'[a].changedAt >= k.staleTime)
  {
    var tier2, tier3 :| Tiers(k, m, m', now, tier2, tier3);
    var aged := AgedIn(m, now, k.staleTime);
    if |tier2| == |aged| {
      SubsetFull(tier2, aged);
      forall a | a in m'
        ensures !(m'[a].state == STALE && m'[a].queue == [] && now - m'[a].changedAt >= k.staleTime)
      {
        assert a !in aged && m'[a] == m[a];
      }
    }
  }

  /** The STALE entries past their time that go are the oldest ones. */
  lemma AgedEvictsOldest(k: Knobs, m: Table, m': Table, now: real, a: Addr, b: Addr)
    requires k.Valid() && Collected(k, m, m', now)
    requires a in m && m[a].state == STALE && m[a].queue == [] && now - m[a].changedAt >= k.staleTime
    requires b in m && m[b].state == STALE && m[b].queue == [] && now - m[b].changedAt >= k.staleTime
    requires a !in m' && b in m'
    ensures m[a].changedAt <= m[b].changedAt
  {
    assert a in AgedIn(m, now, k.staleTime) && b in AgedIn(m, now, k.staleTime);
    var tier2, tier3 :| Tiers(k, m, m', now, tier2, tier3);
    if tier3 != {} {
      CapComesLast(k, m, m', now, tier2, tier3);
    }
    assert a in tier2 && b !in tier2;
  }

  // ----- the announced order at the hard cap

  /** Entries in state s are announced to go before entries in state t. */
  predicate Precedes(s: State, t: State) {
    (s == FAILED && (t == STALE || t == REACHABLE)) || (s == STALE && t == REACHABLE)
  }

  /** An evictable entry y stays although x goes, which should go after it. */
  ghost predicate OutOfTurn(m: Table, m': Table, x: Addr, y: Addr) {
    && x in m && x !in m' && y in m && y in m'
    && Evictable(m[y]) && Precedes(m[y].state, m[x].state)
  }

  /** FAILED goes before STALE and STALE before REACHABLE, as the collector announces. */
  ghost predicate InAnnouncedOrder(m: Table, m': Table) {
    forall x, y :: !OutOfTurn(m, m', x, y)
  }

  /** The entries the hard cap chooses from: evictable, and neither FAILED nor STALE past their time. */
  function CapCandidates(m: Table, now: real, staleTime: real): set<Addr> {
    LeftIn(m, AgedIn(m, now, staleTime))
  }

  /** How many of them have to go. */
  function CapExcess(k: Knobs, m: Table, now: real): nat {
    Excess(|m| - |FailedIn(m)| - |AgedIn(m, now, k.staleTime)|, k.thresh3)
  }

  /** The candidates used before x, all of which go before it. */
  function UsedBefore(m: Table, cands: set<Addr>, x: Addr): set<Addr>
    requires cands <= m.Keys && x in cands
  {
    set z | z in cands && m[z].usedAt < m[x].usedAt
  }

  /** The other candidates used no later than y, all of which may go before it. */
  function UsedUntil(m: Table, cands: set<Addr>, y: Addr): set<Addr>
    requires cands <= m.Keys && y in cands
  {
    set z | z in cands && z != y && m[z].usedAt <= m[y].usedAt
  }

  /** The REACHABLE candidate x was used no later than the STALE candidate y, and n is a number of
      evictions large enough to reach x and small enough to spare y. */
  ghost predicate Separates(m: Table, cands: set<Addr>, n: nat, x: Addr, y: Addr)
    requires cands <= m.Keys
  {
    && x in cands && m[x].state == REACHABLE && y in cands && m[y].state == STALE
    && m[x].usedAt <= m[y].usedAt
    && |UsedBefore(m, cands, x)| < n <= |UsedUntil(m, cands, y)|
  }

  lemma {:induction false} EarliestUsed(m: Table, s: set<Addr>) returns (z: Addr)
    requires s <= m.Keys && s != {}
    ensures z in s && forall q :: q in s ==> m[z].usedAt <= m[q].usedAt
    decreases |s|
  {
    z :| z in s;
    if s == {z} {
    } else {
      var rest := s - {z};
      assert s == rest + {z};
      var w := EarliestUsed(m, rest);
      if m[w].usedAt < m[z].usedAt {
        z := w;
      }
    }
  }

  /** Between two sets of oldest candidates there is one of every size. */
  lemma {:induction false} OldestBetween(m: Table, cands: set<Addr>, inner: set<Addr>, outer: set<Addr>, n: nat)
    returns (picked: set<Addr>)
    requires cands <= m.Keys && inner <= outer && |inner| <= n <= |outer|
    requires OldestFirst(m, cands, inner, Used) && OldestFirst(m, cands, outer, Used)
    ensures inner <= picked <= outer && |picked| == n && OldestFirst(m, cands, picked, Used)
    decreases n - |inner|
  {
    if |inner| == n {
      picked := inner;
    } else {
      assert outer == inner + (outer - inner);
      var z := EarliestUsed(m, outer - inner);
      picked := OldestBetween(m, cands, inner + {z}, outer, n);
    }
  }

  /** What the hard cap evicts when the chosen candidates are the given ones. */
  lemma CapOutcome(k: Knobs, m: Table, now: real, picked: set<Addr>) returns (m': Table)
    requires k.Valid() && CapExcess(k, m, now) > 0 && |picked| == CapExcess(k, m, now)
    requires OldestFirst(m, CapCandidates(m, now, k.staleTime), picked, Used)
    ensures Collected(k, m, m', now) && forall a :: a in m' ==> a !in picked
    ensures forall a :: a in CapCandidates(m, now, k.staleTime) && a !in picked ==> a in m'
  {
    m' := m - FailedIn(m) - AgedIn(m, now, k.staleTime) - picked;
    CapTiers(k, m, m', now, picked);
  }

  lemma CapTiers(k: Knobs, m: Table, m': Table, now: real, picked: set<Addr>)
    requires k.Valid() && CapExcess(k, m, now) > 0 && |picked| == CapExcess(k, m, now)
    requires OldestFirst(m, CapCandidates(m, now, k.staleTime), picked, Used)
    requires m' == m - FailedIn(m) - AgedIn(m, now, k.staleTime) - picked
    ensures Tiers(k, m, m', now, AgedIn(m, now, k.staleTime), picked)
  {
    var aged := AgedIn(m, now, k.staleTime);
    var m1 := m - FailedIn(m);
    CapChosen(k, m, now, aged, picked);
    assert aged <= m1.Keys && picked <= (m1 - aged).Keys;
    Remaining(m, m1, m1 - aged, m', aged, picked);
  }

  lemma CapChosen(k: Knobs, m: Table, now: real, aged: set<Addr>, picked: set<Addr>)
    requires k.Valid() && CapExcess(k, m, now) > 0 && |picked| == CapExcess(k, m, now)
    requires aged == AgedIn(m, now, k.staleTime) && OldestFirst(m, LeftIn(m, aged), picked, Used)
    ensures Chosen(k, m, now, aged, picked)
  {
    SubsetCount(picked, LeftIn(m, aged));
    CapCounts(k, |m| - |FailedIn(m)|, |aged|, |LeftIn(m, aged)|, |picked|);
  }

  lemma CapCounts(k: Knobs, size: nat, aged: nat, left: nat, picked: nat)
    requires k.Valid() && picked == Excess(size - aged, k.thresh3) > 0 && picked <= left
    ensures aged == EvictCount(aged, Excess(size, k.thresh2))
    ensures picked == EvictCount(left, Excess(size - aged, k.thresh3))
  {
  }

  /** A separating number of evictions lets the pass take x and leave y. */
  lemma SeparatedOutOfTurn(k: Knobs, m: Table, now: real, x: Addr, y: Addr) returns (m': Table)
    requires k.Valid() && Separates(m, CapCandidates(m, now, k.staleTime), CapExcess(k, m, now), x, y)
    ensures Collected(k, m, m', now) && OutOfTurn(m, m', x, y)
  {
    var cands := CapCandidates(m, now, k.staleTime);
    var inner, outer := UsedBefore(m, cands, x) + {x}, UsedUntil(m, cands, y);
    var picked := OldestBetween(m, cands, inner, outer, CapExcess(k, m, now));
    m' := CapOutcome(k, m, now, picked);
    assert x in inner && y !in outer;
  }

  lemma OldestSeparate(m: Table, cands: set<Addr>, picked: set<Addr>, x: Addr, y: Addr)
    requires cands <= m.Keys && OldestFirst(m, cands, picked, Used) && x in picked && y in cands && y !in picked
    ensures m[x].usedAt <= m[y].usedAt && |UsedBefore(m, cands, x)| < |picked| <= |UsedUntil(m, cands, y)|
  {
    assert TimeOf(m[x], Used) <= TimeOf(m[y], Used);
    forall z | z in UsedBefore(m, cands, x)
      ensures z in picked
    {
      assert TimeOf(m[z], Used) < TimeOf(m[x], Used);
    }
    SubsetCount(UsedBefore(m, cands, x) + {x}, picked);
    forall z | z in picked
      ensures z in UsedUntil(m, cands, y)
    {
      assert TimeOf(m[z], Used) <= TimeOf(m[y], Used);
    }
    SubsetCount(picked, UsedUntil(m, cands, y));
  }

  /** Between an evicted REACHABLE entry and a spared candidate lies the choice of the hard cap. */
  lemma CapChoice(k: Knobs, m: Table, m': Table, now: real, x: Addr, y: Addr) returns (picked: set<Addr>)
    requires k.Valid() && Collected(k, m, m', now) && OutOfTurn(m, m', x, y)
    ensures var cands := CapCandidates(m, now, k.staleTime);
      && OldestFirst(m, cands, picked, Used) && |picked| == CapExcess(k, m, now)
      && x in picked && y in cands && y !in picked
  {
    var tier2, tier3 :| Tiers(k, m, m', now, tier2, tier3);
    assert x in tier3;
    CapComesLast(k, m, m', now, tier2, tier3);
    picked := tier3;
    var cands := CapCandidates(m, now, k.staleTime);
    assert y in cands;
    if |tier3| == |cands| {
      SubsetFull(tier3, cands);
    }
  }

  /** A pass that takes x and leaves y evicts a separating number of candidates. */
  lemma OutOfTurnSeparated(k: Knobs, m: Table, m': Table, now: real, x: Addr, y: Addr)
    requires k.Valid() && Collected(k, m, m', now) && OutOfTurn(m, m', x, y)
    ensures Separates(m, CapCandidates(m, now, k.staleTime), CapExcess(k, m, now), x, y)
  {
    var picked := CapChoice(k, m, m', now, x, y);
    OldestSeparate(m, CapCandidates(m, now, k.staleTime), picked, x, y);
  }

  /** Every outcome of a pass is in the announced order exactly when the number of evictions at the cap
      separates no REACHABLE candidate from a STALE one used no earlier. */
  lemma AnnouncedOrderIff(k: Knobs, m: Table, now: real)
    requires k.Valid()
    ensures (forall m' :: Collected(k, m, m', now) ==> InAnnouncedOrder(m, m'))
       <==> forall x, y :: !Separates(m, CapCandidates(m, now, k.staleTime), CapExcess(k, m, now), x, y)
  {
    var cands, n := CapCandidates(m, now, k.staleTime), CapExcess(k, m, now);
    forall x, y | Separates(m, cands, n, x, y)
      ensures exists m' :: Collected(k, m, m', now) && !InAnnouncedOrder(m, m')
    {
      var m' := SeparatedOutOfTurn(k, m, now, x, y);
    }
    forall m', x, y | Collected(k, m, m', now) && OutOfTurn(m, m', x, y)
      ensures Separates(m, cands, n, x, y)
    {
      OutOfTurnSeparated(k, m, m', now, x, y);
    }
  }

  /** Every STALE candidate was used before every REACHABLE one. */
  ghost predicate StaleUsedFirst(m: Table, cands: set<Addr>)
    requires cands <= m.Keys
  {
    forall x, y :: x in cands && m[x].state == REACHABLE && y in cands && m[y].state == STALE ==>
      m[y].usedAt < m[x].usedAt
  }

  /** The order is the announced one whatever the thresholds exactly when every STALE candidate was
      used before every REACHABLE one. */
  lemma AnnouncedAtEveryCap(m: Table, now: real, staleTime: real)
    ensures (forall k: Knobs, m' :: k.Valid() && k.staleTime == staleTime && Collected(k, m, m', now) ==>
               InAnnouncedOrder(m, m'))
       <==> StaleUsedFirst(m, CapCandidates(m, now, staleTime))
  {
    var cands := CapCandidates(m, now, staleTime);
    if StaleUsedFirst(m, cands) {
      forall k: Knobs, m' | k.Valid() && k.staleTime == staleTime && Collected(k, m, m', now)
        ensures InAnnouncedOrder(m, m')
      {
        AnnouncedOrderIff(k, m, now);
      }
    } else {
      var x, y :| x in cands && m[x].state == REACHABLE && y in cands && m[y].state == STALE
                  && m[x].usedAt <= m[y].usedAt;
      var k := SeparatingCap(m, now, staleTime, x, y);
      var m' := SeparatedOutOfTurn(k, m, now, x, y);
    }
  }

  lemma SeparatingCap(m: Table, now: real, staleTime: real, x: Addr, y: Addr) returns (k: Knobs)
    requires var cands := CapCandidates(m, now, staleTime);
      x in cands && m[x].state == REACHABLE && y in cands && m[y].state == STALE && m[x].usedAt <= m[y].usedAt
    ensures k.Valid() && k.staleTime == staleTime
    ensures Separates(m, CapCandidates(m, now, staleTime), CapExcess(k, m, now), x, y)
  {
    var cands := CapCandidates(m, now, staleTime);
    var outer := UsedUntil(m, cands, y);
    SubsetCount(UsedBefore(m, cands, x) + {x}, outer);
    var m1 := m - FailedIn(m);
    SizeAfter(m, FailedIn(m));
    SizeAfter(m1, AgedIn(m, now, staleTime));
    var rest := m1 - AgedIn(m, now, staleTime);
    SubsetCount(outer, rest.Keys);
    k := Knobs(1.0, 1.0, 1, 1, 1, 0, 0, |rest| - |outer|, staleTime, true);
  }

  /** The two entries of the witness. */
  const UP := Entry(Some(7), REACHABLE, 1.0, 0, [], 1.0)
  const OLD := Entry(Some(8), STALE, 2.0, 0, [], 2.0)

  /** Two entries and a cap of one: the REACHABLE entry goes and the STALE one, used later, stays. */
  lemma AnnouncedOrderFails(k: Knobs)
    requires k.Valid() && k.thresh1 == k.thresh2 == k.thresh3 == 1 && k.staleTime == 60.0
    ensures var m: Table := map[1 := UP, 2 := OLD];
      Collected(k, m, map[2 := OLD], 3.0) && OutOfTurn(m, map[2 := OLD], 1, 2)
    ensures forall m' :: Collected(k, map[1 := UP, 2 := OLD], m', 3.0) ==> m' == map[2 := OLD]
  {
    var m: Table := map[1 := UP, 2 := OLD];
    forall m' | Collected(k, m, m', 3.0)
      ensures m' == map[2 := OLD]
    {
      assert m.Keys == {1, 2} && |m| == |m.Keys|;
      var tier2, tier3 :| Tiers(k, m, m', 3.0, tier2, tier3);
      OnlyStaleStays(k, m, m', tier2, tier3);
    }
    var m' := ReachableGoes(k, m);
  }

  lemma OnlyStaleStays(k: Knobs, m: Table, m': Table, tier2: set<Addr>, tier3: set<Addr>)
    requires k.thresh3 == 1 && k.staleTime == 60.0
    requires m == map[1 := UP, 2 := OLD] && Tiers(k, m, m', 3.0, tier2, tier3)
    ensures m' == map[2 := OLD]
  {
    assert FailedIn(m) == {} && AgedIn(m, 3.0, 60.0) == {} == tier2;
    assert m.Keys == {1, 2} && |m| == |m.Keys|;
    LeastRecentlyUsed(m, tier3);
    assert m'.Keys == {2};
  }

  lemma LeastRecentlyUsed(m: Table, picked: set<Addr>)
    requires m == map[1 := UP, 2 := OLD]
    ensures LeftIn(m, {}) == {1, 2}
    ensures OldestFirst(m, LeftIn(m, {}), picked, Used) && |picked| == 1 <==> picked == {1}
  {
    assert LeftIn(m, {}) == {1, 2};
    if picked <= {1, 2} && |picked| == 1 && picked != {1} {
      var a :| a in picked;
      SubsetFull({a}, picked);
      assert 2 in picked && 1 !in picked;
    }
  }

  lemma ReachableGoes(k: Knobs, m: Table) returns (m': Table)
    requires k.Valid() && k.thresh3 == 1 && k.staleTime == 60.0 && m == map[1 := UP, 2 := OLD]
    ensures Collected(k, m, m', 3.0)
  {
    assert FailedIn(m) == {} && AgedIn(m, 3.0, 60.0) == {};
    assert m.Keys == {1, 2} && |m| == |m.Keys|;
    assert CapCandidates(m, 3.0, 60.0) == {1, 2};
    m' := CapOutcome(k, m, 3.0, {1});
  }
}
