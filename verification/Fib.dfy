/** The host-mode routing table: longest-prefix match over stored and connected routes. */
module Fib {
  import opened Bits
  import opened Options
  import opened IpNetwork

  datatype Scope = UNIVERSE | SITE | LINK | HOST | NOWHERE
  datatype Protocol = UNSPEC | REDIRECT | KERNEL | BOOT | STATIC | RA | DHCP

  datatype Route = Route(destination: Network, gateway: Option<nat>, prefsrc: Option<nat>, metric: nat,
                         scope: Scope, protocol: Protocol, oif: Option<int>)

  /** A directly connected network and the interface that owns it. */
  datatype Connected = Connected(network: Network, oif: int)

  function ConnectedRoute(c: Connected): Route {
    Route(c.network, None, None, 0, LINK, KERNEL, Some(c.oif))
  }

  function ConnectedRoutes(connected: seq<Connected>): (r: seq<Route>)
    ensures |r| == |connected| && forall i :: 0 <= i < |r| ==> r[i] == ConnectedRoute(connected[i])
  {
    seq(|connected|, i requires 0 <= i < |connected| => ConnectedRoute(connected[i]))
  }

  /** r covers the address a of family v. */
  predicate Matches(r: Route, v: Version, a: nat) {
    Contains(r.destination, v, a)
  }

  /** The key of r is at most that of s: shorter prefix, then higher metric, then gatewayed. */
  predicate KeyLe(r: Route, s: Route) {
    var p, q := PrefixLen(r.destination), PrefixLen(s.destination);
    || p < q
    || (p == q && r.metric > s.metric)
    || (p == q && r.metric == s.metric && (r.gateway.None? ==> s.gateway.None?))
  }

  predicate KeyLt(r: Route, s: Route) {
    !KeyLe(s, r)
  }

  /** The i-th candidate is the answer: it covers the address, no covering candidate has a larger key,
      and every earlier covering candidate has a smaller one. */
  ghost predicate Wins(cands: seq<Route>, i: nat, v: Version, a: nat) {
    && i < |cands| && Matches(cands[i], v, a)
    && (forall j :: 0 <= j < |cands| && Matches(cands[j], v, a) ==> KeyLe(cands[j], cands[i]))
    && (forall j :: 0 <= j < i && Matches(cands[j], v, a) ==> KeyLt(cands[j], cands[i]))
  }

  ghost predicate NoneMatches(cands: seq<Route>, v: Version, a: nat) {
    forall j :: 0 <= j < |cands| ==> !Matches(cands[j], v, a)
  }

  /** r is the result of a lookup among cands. */
  ghost predicate Answers(cands: seq<Route>, v: Version, a: nat, r: Option<Route>) {
    && (r.None? <==> NoneMatches(cands, v, a))
    && (r.Some? ==> exists i: nat :: Wins(cands, i, v, a) && cands[i] == r.value)
  }

  lemma NoEarlierWinner(cands: seq<Route>, i: nat, j: nat, v: Version, a: nat)
    requires Wins(cands, i, v, a) && Wins(cands, j, v, a)
    ensures i <= j
  {
    assert Matches(cands[i], v, a) && Matches(cands[j], v, a);
    assert KeyLe(cands[i], cands[j]);
  }

  /** There is exactly one answer. */
  lemma AnswerUnique(cands: seq<Route>, v: Version, a: nat, r: Option<Route>, s: Option<Route>)
    requires Answers(cands, v, a, r) && Answers(cands, v, a, s)
    ensures r == s
  {
    if r.Some? && s.Some? {
      var i: nat :| Wins(cands, i, v, a) && cands[i] == r.value;
      var j: nat :| Wins(cands, j, v, a) && cands[j] == s.value;
      NoEarlierWinner(cands, i, j, v, a);
      NoEarlierWinner(cands, j, i, v, a);
    }
  }

  /** All covering candidates with the winner's prefix length are routes to the winner's network. */
  lemma SameLengthSameNetwork(cands: seq<Route>, i: nat, j: nat, v: Version, a: nat)
    requires Wins(cands, i, v, a) && j < |cands| && Matches(cands[j], v, a)
    requires ValidNetwork(cands[i].destination) && ValidNetwork(cands[j].destination)
    requires PrefixLen(cands[i].destination) == PrefixLen(cands[j].destination)
    ensures cands[j].destination == cands[i].destination
  {
    OverlapsIffNested(cands[i].destination, cands[j].destination);
    SamePrefixSameNetwork(cands[i].destination, cands[j].destination);
  }

  /** The winner's network is the most specific of those that cover the address: it lies inside each. */
  lemma WinnerIsMostSpecific(cands: seq<Route>, i: nat, j: nat, v: Version, a: nat)
    requires Wins(cands, i, v, a) && j < |cands| && Matches(cands[j], v, a)
    requires ValidNetwork(cands[i].destination) && ValidNetwork(cands[j].destination)
    ensures SubnetOf(cands[i].destination, cands[j].destination)
  {
    var m, n := cands[i].destination, cands[j].destination;
    assert KeyLe(cands[j], cands[i]);
    OverlapsIffNested(m, n);
    if !SubnetOf(m, n) {
      ShorterOrSame(n, m);
      SamePrefixSameNetwork(m, n);
    }
  }

  /** Among the covering routes of its prefix length the winner has the lowest metric, and it goes
      through a gateway only if every other one of that metric does. */
  lemma WinnerBreaksTies(cands: seq<Route>, i: nat, j: nat, v: Version, a: nat)
    requires Wins(cands, i, v, a) && j < |cands| && Matches(cands[j], v, a)
    requires PrefixLen(cands[j].destination) == PrefixLen(cands[i].destination)
    ensures cands[i].metric <= cands[j].metric
    ensures cands[i].metric == cands[j].metric && cands[i].gateway.Some? ==> cands[j].gateway.Some?
    ensures j < i ==> cands[i].metric < cands[j].metric || (cands[i].gateway.None? && cands[j].gateway.Some?)
  {
    assert KeyLe(cands[j], cands[i]);
    assert j < i ==> KeyLt(cands[j], cands[i]);
  }

  lemma ShorterOrSame(m: Network, n: Network)
    requires ValidNetwork(m) && ValidNetwork(n) && SubnetOf(m, n)
    ensures PrefixLen(n) <= PrefixLen(m)
  {
    BlockFacts(m);
    BlockFacts(n);
    Pow2Order(BlockOf(m).order, BlockOf(n).order);
  }

  // ----- what the connected networks contribute

  /** r is the on-link route to the network of c, through the interface that owns it. */
  predicate OnLink(r: Route, c: Connected) {
    && r.destination == c.network && r.oif == Some(c.oif) && r.gateway == None && r.prefsrc == None
    && r.metric == 0 && r.scope == LINK && r.protocol == KERNEL
  }

  /** An answer is a stored route or the on-link route to one of the connected networks, and it covers
      the address. */
  lemma AnswerIsStoredOrOnLink(routes: seq<Route>, connected: seq<Connected>, v: Version, a: nat, r: Route)
    requires Answers(routes + ConnectedRoutes(connected), v, a, Some(r))
    ensures Contains(r.destination, v, a)
    ensures r in routes || exists i :: 0 <= i < |connected| && OnLink(r, connected[i])
  {
    var cands := routes + ConnectedRoutes(connected);
    var w: nat :| Wins(cands, w, v, a) && cands[w] == r;
    if w < |routes| {
      assert r == routes[w];
    } else {
      assert OnLink(r, connected[w - |routes|]);
    }
  }

  /** There is no route exactly when neither a stored route nor a connected network covers the address. */
  lemma NoRouteIff(routes: seq<Route>, connected: seq<Connected>, v: Version, a: nat, r: Option<Route>)
    requires Answers(routes + ConnectedRoutes(connected), v, a, r)
    ensures r.None? <==>
      && (forall i :: 0 <= i < |routes| ==> !Contains(routes[i].destination, v, a))
      && (forall i :: 0 <= i < |connected| ==> !Contains(connected[i].network, v, a))
  {
    var cands := routes + ConnectedRoutes(connected);
    assert forall i :: 0 <= i < |routes| ==> cands[i] == routes[i];
    assert forall i :: 0 <= i < |connected| ==> cands[|routes| + i].destination == connected[i].network;
    if r.None? {
      forall i | 0 <= i < |connected|
        ensures !Contains(connected[i].network, v, a)
      {
        assert !Matches(cands[|routes| + i], v, a);
      }
    }
  }

  /** A direct route of metric 0 loses to a longer prefix only, or to another such route to its network. */
  lemma DirectLosesToEquals(cands: seq<Route>, w: nat, j: nat, n: Network, v: Version, a: nat, r: Route)
    requires Wins(cands, w, v, a) && cands[w] == r && ValidNetwork(r.destination)
    requires j < |cands| && cands[j].destination == n && ValidNetwork(n) && Contains(n, v, a)
    requires cands[j].gateway == None && cands[j].metric == 0
    ensures PrefixLen(n) <= PrefixLen(r.destination)
    ensures PrefixLen(n) == PrefixLen(r.destination) ==>
      r.destination == n && r.gateway == None && r.metric == 0
  {
    assert Matches(cands[j], v, a) && KeyLe(cands[j], cands[w]);
    if PrefixLen(n) == PrefixLen(r.destination) {
      WinnerBreaksTies(cands, w, j, v, a);
      SameLengthSameNetwork(cands, w, j, v, a);
    }
  }

  /** A connected network that covers the address is never passed over for a shorter prefix, and where it
      has the length of the answer's, the answer is a direct route of metric 0 to that network. */
  lemma ConnectedPreferred(routes: seq<Route>, connected: seq<Connected>, c: Connected, v: Version, a: nat, r: Route)
    requires Answers(routes + ConnectedRoutes(connected), v, a, Some(r)) && ValidNetwork(r.destination)
    requires c in connected && ValidNetwork(c.network) && Contains(c.network, v, a)
    ensures PrefixLen(c.network) <= PrefixLen(r.destination)
    ensures PrefixLen(c.network) == PrefixLen(r.destination) ==>
      r.destination == c.network && r.gateway == None && r.metric == 0
  {
    var cands := routes + ConnectedRoutes(connected);
    var w := WinnerOf(cands, v, a, r);
    var j := CandidateFor(routes, connected, c);
    DirectLosesToEquals(cands, w, j, c.network, v, a, r);
  }

  lemma WinnerOf(cands: seq<Route>, v: Version, a: nat, r: Route) returns (w: nat)
    requires Answers(cands, v, a, Some(r))
    ensures Wins(cands, w, v, a) && cands[w] == r
  {
    w :| Wins(cands, w, v, a) && cands[w] == r;
  }

  lemma CandidateFor(routes: seq<Route>, connected: seq<Connected>, c: Connected) returns (j: nat)
    requires c in connected
    ensures |routes| <= j < |routes + ConnectedRoutes(connected)|
    ensures OnLink((routes + ConnectedRoutes(connected))[j], c)
  {
    var i :| 0 <= i < |connected| && connected[i] == c;
    j := |routes| + i;
    assert (routes + ConnectedRoutes(connected))[j] == ConnectedRoutes(connected)[i];
  }

  /** A direct route of metric 0 to the network is stored. */
  ghost predicate StoredDirect(routes: seq<Route>, n: Network) {
    exists s :: s in routes && s.destination == n && s.gateway == None && s.metric == 0
  }

  /** The answer to a direct lookup is a stored route exactly when a direct route of metric 0 to its
      network is stored: the on-link route is taken otherwise. */
  lemma StoredIff(routes: seq<Route>, connected: seq<Connected>, v: Version, a: nat, r: Route)
    requires Answers(routes + ConnectedRoutes(connected), v, a, Some(r)) && r.gateway == None && r.metric == 0
    ensures r in routes <==> StoredDirect(routes, r.destination)
  {
    var cands := routes + ConnectedRoutes(connected);
    var w: nat :| Wins(cands, w, v, a) && cands[w] == r;
    if StoredDirect(routes, r.destination) {
      var s :| s in routes && s.destination == r.destination && s.gateway == None && s.metric == 0;
      StoredFirst(routes, ConnectedRoutes(connected), w, s, v, a);
    }
  }

  /** A stored route with the winner's prefix length, metric and directness leaves no later winner. */
  lemma StoredFirst(routes: seq<Route>, others: seq<Route>, w: nat, s: Route, v: Version, a: nat)
    requires Wins(routes + others, w, v, a) && s in routes && Matches(s, v, a)
    requires var r := (routes + others)[w];
      PrefixLen(s.destination) == PrefixLen(r.destination) && s.metric == r.metric && s.gateway == r.gateway == None
    ensures (routes + others)[w] in routes
  {
    var m :| 0 <= m < |routes| && routes[m] == s;
    assert (routes + others)[m] == s;
    WinnerBreaksTies(routes + others, w, m, v, a);
    assert (routes + others)[w] == routes[w];
  }

  // ----- removing routes

  function Filter(routes: seq<Route>, keep: Route -> bool): (r: seq<Route>)
    ensures |r| <= |routes|
  {
    if routes == [] then [] else
      var front, last := routes[..|routes| - 1], routes[|routes| - 1];
      Filter(front, keep) + if keep(last) then [last] else []
  }

  lemma {:induction false} FilterMembers(routes: seq<Route>, keep: Route -> bool, x: Route)
    ensures x in Filter(routes, keep) <==> x in routes && keep(x)
  {
    if routes == [] {
    } else {
      var front, last := routes[..|routes| - 1], routes[|routes| - 1];
      FilterMembers(front, keep, x);
      assert routes == front + [last];
    }
  }

  lemma {:induction false} FilterConcat(s: seq<Route>, t: seq<Route>, keep: Route -> bool)
    ensures Filter(s + t, keep) == Filter(s, keep) + Filter(t, keep)
  {
    if t == [] {
      assert s + t == s;
    } else {
      var n := |t| - 1;
      FilterConcat(s, t[..n], keep);
      var u := s + t;
      assert u[..|u| - 1] == s + t[..n] && u[|u| - 1] == t[n];
      var last := if keep(t[n]) then [t[n]] else [];
      assert Filter(u, keep) == Filter(s + t[..n], keep) + last;
      assert Filter(t, keep) == Filter(t[..n], keep) + last;
    }
  }

  /** Leaving out candidates around the winner does not change who wins. */
  lemma ThinnedWinner(cands: seq<Route>, i: nat, pre: seq<Route>, post: seq<Route>, v: Version, a: nat)
    requires Wins(cands, i, v, a)
    requires forall x :: x in pre ==> x in cands[..i]
    requires forall x :: x in post ==> x in cands
    ensures Wins(pre + [cands[i]] + post, |pre|, v, a)
  {
    var kept := pre + [cands[i]] + post;
    forall j | 0 <= j < |kept| && Matches(kept[j], v, a)
      ensures KeyLe(kept[j], cands[i])
      ensures j < |pre| ==> KeyLt(kept[j], cands[i])
    {
      if j < |pre| {
        assert kept[j] == pre[j] && pre[j] in pre;
        var m :| 0 <= m < i && cands[..i][m] == pre[j];
      } else if j > |pre| {
        assert kept[j] == post[j - |pre| - 1] && kept[j] in post;
        var m :| 0 <= m < |cands| && cands[m] == kept[j];
      }
    }
  }

  // ----- the table

  class RouteTable {
    var routes: seq<Route>

    constructor ()
      ensures routes == []
    {
      routes := [];
    }

    method Add(route: Route)
      modifies this
      ensures routes == old(routes) + [route]
    {
      routes := routes + [route];
    }

    /** Drop every route that keep rejects, counting them: the comprehension both removals share. */
    method Retain(keep: Route -> bool) returns (removed: nat)
      modifies this
      ensures routes == Filter(old(routes), keep) && removed == |old(routes)| - |routes|
    {
      var kept: seq<Route> := [];
      for i := 0 to |routes|
        invariant routes == old(routes) && kept == Filter(routes[..i], keep)
      {
        assert routes[..i + 1][..i] == routes[..i];
        if keep(routes[i]) {
          kept := kept + [routes[i]];
        }
      }
      assert routes[..|routes|] == routes;
      removed := |routes| - |kept|;
      routes := kept;
    }

    /** The routes to destination go, only those through gateway if one is given; all others stay in
        their order. */
    method Remove(destination: Network, gateway: Option<nat>) returns (removed: nat)
      modifies this
      ensures routes == Filter(old(routes), r => !RemovedBy(r, destination, gateway))
      ensures forall r :: r in routes <==>
        r in old(routes) && (r.destination != destination || (gateway.Some? && r.gateway != gateway))
      ensures removed == |old(routes)| - |routes|
    {
      removed := Retain(r => !RemovedBy(r, destination, gateway));
      ghost var keep := (r: Route) => !RemovedBy(r, destination, gateway);
      forall r: Route
        ensures r in Filter(old(routes), keep) <==>
          r in old(routes) && (r.destination != destination || (gateway.Some? && r.gateway != gateway))
      {
        FilterMembers(old(routes), keep, r);
      }
    }

    method RemoveByOif(oif: int) returns (removed: nat)
      modifies this
      ensures routes == Filter(old(routes), (r: Route) => r.oif != Some(oif))
      ensures forall r :: r in routes <==> r in old(routes) && r.oif != Some(oif)
      ensures removed == |old(routes)| - |routes|
    {
      removed := Retain((r: Route) => r.oif != Some(oif));
      ghost var keep := (r: Route) => r.oif != Some(oif);
      forall r: Route
        ensures r in Filter(old(routes), keep) <==> r in old(routes) && r.oif != Some(oif)
      {
        FilterMembers(old(routes), keep, r);
      }
    }

    /** `lookup`: the first candidate with the largest key, the stored routes before the connected ones. */
    method Lookup(v: Version, a: nat, connected: seq<Connected>) returns (r: Option<Route>)
      ensures Answers(routes + ConnectedRoutes(connected), v, a, r)
      ensures r.None? <==>
        && (forall i :: 0 <= i < |routes| ==> !Contains(routes[i].destination, v, a))
        && (forall i :: 0 <= i < |connected| ==> !Contains(connected[i].network, v, a))
      ensures r.Some? ==> r.value in routes || exists i :: 0 <= i < |connected| && OnLink(r.value, connected[i])
    {
      var candidates := routes;
      for i := 0 to |connected|
        invariant candidates == routes + ConnectedRoutes(connected[..i])
      {
        assert ConnectedRoutes(connected[..i + 1]) == ConnectedRoutes(connected[..i]) + [ConnectedRoute(connected[i])];
        candidates := candidates + [ConnectedRoute(connected[i])];
      }
      assert connected[..|connected|] == connected;
      r := FirstLargest(candidates, v, a);
      NoRouteIff(routes, connected, v, a, r);
      if r.Some? {
        AnswerIsStoredOrOnLink(routes, connected, v, a, r.value);
      }
    }
  }

  predicate RemovedBy(r: Route, destination: Network, gateway: Option<nat>) {
    r.destination == destination && (gateway.None? || r.gateway == gateway)
  }

  /** The covering candidates, and of them the first one with the largest key. */
  method FirstLargest(candidates: seq<Route>, v: Version, a: nat) returns (r: Option<Route>)
    ensures Answers(candidates, v, a, r)
  {
    r := None;
    ghost var at: nat := 0;
    for i := 0 to |candidates|
      invariant r.None? ==> NoneMatches(candidates[..i], v, a)
      invariant r.Some? ==> at < i && candidates[at] == r.value && Wins(candidates[..i], at, v, a)
    {
      assert candidates[..i + 1] == candidates[..i] + [candidates[i]];
      if Matches(candidates[i], v, a) {
        if r.None? {
          FirstMatchWins(candidates[..i], candidates[i], v, a);
          r, at := Some(candidates[i]), i;
        } else if !KeyLe(candidates[i], r.value) {
          LargerKeyWins(candidates[..i], at, candidates[i], v, a);
          r, at := Some(candidates[i]), i;
        } else {
          NotLargerLoses(candidates[..i], at, candidates[i], v, a);
        }
      } else {
        NonMatchIgnored(candidates[..i], at, candidates[i], v, a);
      }
    }
    assert candidates[..|candidates|] == candidates;
    assert r.Some? ==> Matches(candidates[at], v, a);
  }

  lemma FirstMatchWins(cands: seq<Route>, c: Route, v: Version, a: nat)
    requires NoneMatches(cands, v, a) && Matches(c, v, a)
    ensures Wins(cands + [c], |cands|, v, a)
  {
  }

  lemma LargerKeyWins(cands: seq<Route>, at: nat, c: Route, v: Version, a: nat)
    requires Wins(cands, at, v, a) && Matches(c, v, a) && KeyLt(cands[at], c)
    ensures Wins(cands + [c], |cands|, v, a)
  {
    forall j | 0 <= j < |cands| && Matches(cands[j], v, a)
      ensures KeyLt(cands[j], c) && KeyLe(cands[j], c)
    {
      assert KeyLe(cands[j], cands[at]);
    }
  }

  lemma NotLargerLoses(cands: seq<Route>, at: nat, c: Route, v: Version, a: nat)
    requires Wins(cands, at, v, a) && KeyLe(c, cands[at])
    ensures Wins(cands + [c], at, v, a)
  {
  }

  lemma NonMatchIgnored(cands: seq<Route>, at: nat, c: Route, v: Version, a: nat)
    requires !Matches(c, v, a)
    ensures Wins(cands, at, v, a) ==> Wins(cands + [c], at, v, a)
    ensures NoneMatches(cands, v, a) ==> NoneMatches(cands + [c], v, a)
  {
  }

  /** A removal that does not remove the winner leaves the answer of a lookup unchanged; where nothing
      matched, nothing matches after it. */
  lemma RemovalKeepsAnswer(routes: seq<Route>, others: seq<Route>, keep: Route -> bool,
                           v: Version, a: nat, r: Option<Route>)
    requires Answers(routes + others, v, a, r)
    requires r.Some? && r.value in routes ==> keep(r.value)
    ensures Answers(Filter(routes, keep) + others, v, a, r)
  {
    var cands := routes + others;
    if r.None? {
      KeptAreMembers(routes, keep);
      MatchNoMore(cands, Filter(routes, keep) + others, v, a);
    } else {
      var i: nat :| Wins(cands, i, v, a) && cands[i] == r.value;
      RemovalKeepsWinner(routes, others, keep, v, a, i);
    }
  }

  lemma MatchNoMore(cands: seq<Route>, fewer: seq<Route>, v: Version, a: nat)
    requires NoneMatches(cands, v, a) && forall x :: x in fewer ==> x in cands
    ensures NoneMatches(fewer, v, a)
  {
    forall j | 0 <= j < |fewer|
      ensures !Matches(fewer[j], v, a)
    {
      assert fewer[j] in fewer;
      var i :| 0 <= i < |cands| && cands[i] == fewer[j];
    }
  }

  lemma RemovalKeepsWinner(routes: seq<Route>, others: seq<Route>, keep: Route -> bool, v: Version, a: nat, i: nat)
    requires Wins(routes + others, i, v, a)
    requires i < |routes| ==> keep(routes[i])
    ensures Answers(routes + others, v, a, Some((routes + others)[i]))
    ensures Answers(Filter(routes, keep) + others, v, a, Some((routes + others)[i]))
  {
    var cands := routes + others;
    var kept := Filter(routes, keep) + others;
    var pre, post := AroundKept(routes, others, keep, i);
    ThinnedWinner(cands, i, pre, post, v, a);
    assert Matches(cands[i], v, a) && Matches(kept[|pre|], v, a);
  }

  lemma AroundKept(routes: seq<Route>, others: seq<Route>, keep: Route -> bool, i: nat)
    returns (pre: seq<Route>, post: seq<Route>)
    requires i < |routes + others| && (i < |routes| ==> keep(routes[i]))
    ensures Filter(routes, keep) + others == pre + [(routes + others)[i]] + post
    ensures forall x :: x in pre ==> x in (routes + others)[..i]
    ensures forall x :: x in post ==> x in routes + others
  {
    var cands := routes + others;
    if i < |routes| {
      var w := [routes[i]];
      pre := Filter(routes[..i], keep);
      post := Filter(routes[i + 1..], keep) + others;
      assert routes == routes[..i] + w + routes[i + 1..];
      FilterConcat(routes[..i] + w, routes[i + 1..], keep);
      FilterConcat(routes[..i], w, keep);
      assert w[..0] == [];
      assert Filter(w, keep) == w;
      assert cands[..i] == routes[..i];
      KeptAreMembers(routes[..i], keep);
      KeptAreMembers(routes[i + 1..], keep);
    } else {
      var n := i - |routes|;
      pre := Filter(routes, keep) + others[..n];
      post := others[n + 1..];
      assert others == others[..n] + [others[n]] + post;
      assert cands[..i] == routes + others[..n];
      KeptAreMembers(routes, keep);
    }
  }

  lemma KeptAreMembers(routes: seq<Route>, keep: Route -> bool)
    ensures forall x :: x in Filter(routes, keep) ==> x in routes
  {
    forall x | x in Filter(routes, keep)
      ensures x in routes
    {
      FilterMembers(routes, keep, x);
    }
  }
}
