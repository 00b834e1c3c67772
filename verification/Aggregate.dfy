/** The two aggregation operations on networks: removing one network from another and
    summarising a mix of addresses and networks. Both produce the one smallest answer. */
module Aggregate {
  import opened Bits
  import opened Dyadic
  import opened IpMask
  import opened IpNetwork
  import opened Options
  import opened Spans

  ghost predicate AllNetworks(v: Version, ns: seq<Network>) {
    forall i :: 0 <= i < |ns| ==> ValidNetwork(ns[i]) && ns[i].version == v
  }

  ghost function BlocksOf(v: Version, ns: seq<Network>): (bs: seq<Block>)
    requires AllNetworks(v, ns)
    ensures |bs| == |ns|
  {
    seq(|ns|, i requires 0 <= i < |ns| => BlockOf(ns[i]))
  }

  ghost function RegionOf(n: Network): Region {
    Interval(n.address, Last(n))
  }

  // ----- address_exclude

  /** The addresses of net that are not in other. */
  ghost function Remainder(net: Network, other: Network): Region {
    RegionOf(net) - RegionOf(other)
  }

  ghost predicate HalvesOf(n: Network, s1: Network, s2: Network) {
    && ValidNetwork(n) && ValidNetwork(s1) && ValidNetwork(s2)
    && s1.version == s2.version == n.version
    && PrefixLen(s1) == PrefixLen(s2) == PrefixLen(n) + 1 <= Width(n.version)
    && s1.address == n.address && s2.address == n.address + Pow2(Width(n.version) - PrefixLen(n) - 1)
  }

  method Halve(n: Network) returns (r: Result<(Network, Network), Error>)
    requires ValidNetwork(n)
    ensures r.Err? <==> PrefixLen(n) == Width(n.version)
    ensures r.Ok? ==> HalvesOf(n, r.value.0, r.value.1)
  {
    var halves := Subnets(n, 1, None);
    if halves.Err? {
      return Err(NotContained);
    }
    if |halves.value| != 2 {
      return Err(NotContained);
    }
    if PrefixLen(n) < Width(n.version) {
      ShiftLeftValue(0, Width(n.version) - PrefixLen(n) - 1);
      ShiftLeftNext(0, Width(n.version) - PrefixLen(n) - 1);
    }
    r := Ok((halves.value[0], halves.value[1]));
  }

  /** half and sib are the two halves of cur, in either order. */
  ghost predicate Siblings(cur: Network, half: Network, sib: Network) {
    HalvesOf(cur, half, sib) || HalvesOf(cur, sib, half)
  }

  /** The addresses of b that are not in c. */
  ghost function Difference(b: Block, c: Block): Region {
    iset a: int | In(a, b) && !In(a, c)
  }

  /** The blocks yielded so far are net without cur, each maximal in net without other. */
  ghost predicate PeeledBlocks(net: Block, other: Block, cur: Block, bs: seq<Block>, bits: nat) {
    && Valid(net, bits) && Valid(cur, bits) && Valid(other, bits)
    && Within(other, cur) && Within(cur, net)
    && (forall i :: 0 <= i < |bs| ==> Valid(bs[i], bits) && Maximal(bs[i], bits, Difference(net, other)))
    && (forall i :: 0 <= i < |bs| ==> !Overlap(bs[i], cur))
    && Disjoint(bs)
    && (forall a :: Covers(Elements(bs), a) <==> a in Difference(net, cur))
  }

  ghost predicate HalfBlocks(cur: Block, half: Block, sib: Block) {
    && half.order == sib.order == cur.order - 1
    && (|| (half.base == cur.base && sib.base == End(half))
        || (sib.base == cur.base && half.base == End(sib)))
  }

  /** The half without other is maximal in what remains: any larger block reaches other. */
  lemma SiblingIsMaximal(net: Block, other: Block, cur: Block, half: Block, sib: Block, bits: nat)
    requires Valid(cur, bits) && Within(other, half) && Within(cur, net) && HalfBlocks(cur, half, sib)
    ensures Maximal(sib, bits, Difference(net, other))
  {
    forall c | Valid(c, bits) && Within(sib, c) && Inside(c, Difference(net, other))
      ensures c == sib
    {
      WithinEqual(sib, c);
      if c.order > sib.order {
        Laminar(cur, c);
        assert In(other.base, c);
      }
    }
  }

  lemma PeelBlock(net: Block, other: Block, cur: Block, half: Block, sib: Block, bs: seq<Block>, bits: nat)
    requires PeeledBlocks(net, other, cur, bs, bits) && HalfBlocks(cur, half, sib)
    requires Valid(half, bits) && Valid(sib, bits) && Within(other, half)
    ensures PeeledBlocks(net, other, half, bs + [sib], bits)
  {
    SiblingIsMaximal(net, other, cur, half, sib, bits);
    assert forall i :: 0 <= i < |bs| ==> !Overlap(bs[i], cur);
    forall a
      ensures Covers(Elements(bs + [sib]), a) <==> a in Difference(net, half)
    {
      assert Covers(Elements(bs), a) <==> a in Difference(net, cur);
      PeelCovers(net, cur, half, sib, bs, a);
    }
  }

  lemma PeelCovers(net: Block, cur: Block, half: Block, sib: Block, bs: seq<Block>, a: int)
    requires Within(cur, net) && HalfBlocks(cur, half, sib)
    requires Covers(Elements(bs), a) <==> a in Difference(net, cur)
    ensures Covers(Elements(bs + [sib]), a) <==> a in Difference(net, half)
  {
    CoversAppend(bs, [sib], a);
    assert sib in Elements([sib]);
  }

  /** The networks yielded so far, one per prefix length on the way from net down to cur. */
  ghost predicate Peeled(net: Network, other: Network, cur: Network, out: seq<Network>) {
    && ValidNetwork(net) && ValidNetwork(cur) && ValidNetwork(other)
    && net.version == cur.version == other.version
    && AllNetworks(net.version, out)
    && |out| == PrefixLen(cur) - PrefixLen(net)
    && (forall i :: 0 <= i < |out| ==> PrefixLen(out[i]) == PrefixLen(net) + 1 + i)
    && PeeledBlocks(BlockOf(net), BlockOf(other), BlockOf(cur), BlocksOf(net.version, out), Width(net.version))
  }

  lemma BlockInOneHalf(cur: Block, s1: Block, s2: Block, other: Block, bits: nat)
    requires Valid(cur, bits) && Valid(s1, bits) && Valid(s2, bits) && Valid(other, bits)
    requires HalfBlocks(cur, s1, s2) && Within(other, cur) && other != cur
    ensures Within(other, s1) <==> !Within(other, s2)
  {
    WithinEqual(other, cur);
    if Overlap(other, s1) {
      Laminar(other, s1);
    } else {
      Laminar(other, s2);
    }
  }

  lemma HalvesAreHalfBlocks(cur: Network, s1: Network, s2: Network)
    requires HalvesOf(cur, s1, s2)
    ensures HalfBlocks(BlockOf(cur), BlockOf(s1), BlockOf(s2)) && HalfBlocks(BlockOf(cur), BlockOf(s2), BlockOf(s1))
  {
  }

  lemma SubnetIffWithin(m: Network, n: Network)
    requires ValidNetwork(m) && ValidNetwork(n) && m.version == n.version
    ensures Valid(BlockOf(m), Width(m.version)) && Valid(BlockOf(n), Width(m.version))
    ensures SubnetOf(m, n) <==> Within(BlockOf(m), BlockOf(n))
    ensures m != n ==> BlockOf(m) != BlockOf(n)
  {
    BlockFacts(m);
    BlockFacts(n);
  }

  /** A proper subnet lies in exactly one half. */
  lemma InOneHalf(cur: Network, s1: Network, s2: Network, other: Network)
    requires HalvesOf(cur, s1, s2) && ValidNetwork(other)
    requires SubnetOf(other, cur) && other != cur
    ensures SubnetOf(other, s1) <==> !SubnetOf(other, s2)
    ensures other == s1 ==> SubnetOf(other, s1)
    ensures other == s2 ==> SubnetOf(other, s2)
  {
    HalvesAreHalfBlocks(cur, s1, s2);
    SubnetIffWithin(other, cur);
    SubnetIffWithin(other, s1);
    SubnetIffWithin(other, s2);
    BlockInOneHalf(BlockOf(cur), BlockOf(s1), BlockOf(s2), BlockOf(other), Width(cur.version));
  }

  lemma PeelHalf(net: Network, other: Network, cur: Network, half: Network, sib: Network, out: seq<Network>)
    requires Peeled(net, other, cur, out)
    requires Siblings(cur, half, sib) && SubnetOf(other, half)
    ensures Peeled(net, other, half, out + [sib])
    ensures SubnetOf(half, net)
  {
    if HalvesOf(cur, half, sib) {
      HalvesAreHalfBlocks(cur, half, sib);
    } else {
      HalvesAreHalfBlocks(cur, sib, half);
    }
    SubnetIffWithin(other, half);
    SubnetIffWithin(half, net);
    SubnetIffWithin(sib, net);
    var bs := BlocksOf(net.version, out);
    assert BlocksOf(net.version, out + [sib]) == bs + [BlockOf(sib)];
    PeelBlock(BlockOf(net), BlockOf(other), BlockOf(cur), BlockOf(half), BlockOf(sib), bs, Width(net.version));
  }

  /** The answer of `address_exclude`: one network per intermediate prefix length, forming the
      maximal tiling of net without other. */
  ghost predicate Excludes(net: Network, other: Network, out: seq<Network>) {
    && ValidNetwork(net) && AllNetworks(net.version, out)
    && |out| == PrefixLen(other) - PrefixLen(net)
    && (forall i :: 0 <= i < |out| ==> PrefixLen(out[i]) == PrefixLen(net) + 1 + i)
    && MaximalTiling(BlocksOf(net.version, out), Width(net.version), Remainder(net, other))
  }

  lemma PeeledIsExcluded(net: Network, other: Network, out: seq<Network>)
    requires Peeled(net, other, other, out)
    ensures Excludes(net, other, out)
  {
    BlockFacts(net);
    BlockFacts(other);
    assert Difference(BlockOf(net), BlockOf(other)) == Remainder(net, other);
  }

  lemma NothingPeeled(net: Network, other: Network)
    requires ValidNetwork(net) && ValidNetwork(other) && SubnetOf(other, net)
    ensures Peeled(net, other, net, [])
  {
    BlockFacts(net);
    BlockFacts(other);
    assert BlocksOf(net.version, []) == [];
  }

  /** `address_exclude`. The two inner error exits are never taken. */
  method AddressExclude(net: Network, other: Network) returns (r: Result<seq<Network>, Error>)
    requires ValidNetwork(net) && ValidNetwork(other)
    ensures r.Err? <==> !SubnetOf(other, net)
    ensures r.Ok? ==> Excludes(net, other, r.value)
  {
    if !SubnetOf(other, net) {
      return Err(NotContained);
    }
    var out: seq<Network> := [];
    NothingPeeled(net, other);
    if other == net {
      PeeledIsExcluded(net, other, out);
      return Ok(out);
    }
    ghost var cur := net;
    LongerPrefix(other, cur);
    var halves := Halve(net);
    if halves.Err? {
      return Err(NotContained);
    }
    var s1, s2 := halves.value.0, halves.value.1;
    while s1 != other && s2 != other
      invariant HalvesOf(cur, s1, s2) && other != cur && SubnetOf(other, cur)
      invariant Peeled(net, other, cur, out)
      decreases Width(net.version) - PrefixLen(cur)
    {
      InOneHalf(cur, s1, s2, other);
      if SubnetOf(other, s1) {
        PeelHalf(net, other, cur, s1, s2, out);
        out := out + [s2];
        cur := s1;
        LongerPrefix(other, s1);
        halves := Halve(s1);
      } else if SubnetOf(other, s2) {
        PeelHalf(net, other, cur, s2, s1, out);
        out := out + [s1];
        cur := s2;
        LongerPrefix(other, s2);
        halves := Halve(s2);
      } else {
        return Err(NotContained);
      }
      if halves.Err? {
        return Err(NotContained);
      }
      s1, s2 := halves.value.0, halves.value.1;
    }
    InOneHalf(cur, s1, s2, other);
    if s1 == other {
      PeelHalf(net, other, cur, s1, s2, out);
      out := out + [s2];
    } else if s2 == other {
      PeelHalf(net, other, cur, s2, s1, out);
      out := out + [s1];
    }
    PeeledIsExcluded(net, other, out);
    r := Ok(out);
  }

  /** A proper subnet has a longer prefix. */
  lemma LongerPrefix(m: Network, n: Network)
    requires ValidNetwork(m) && ValidNetwork(n) && SubnetOf(m, n) && m != n
    ensures PrefixLen(n) < PrefixLen(m)
  {
    BlockFacts(m);
    BlockFacts(n);
    WithinEqual(BlockOf(m), BlockOf(n));
  }

  /** No set of networks covers the same remainder with fewer members, and no other one with as few. */
  lemma ExcludeIsMinimum(net: Network, other: Network, out: seq<Network>, cover: seq<Network>)
    requires Excludes(net, other, out) && AllNetworks(net.version, cover)
    requires CoversExactly(Elements(BlocksOf(net.version, cover)), Remainder(net, other))
    ensures |out| <= |cover|
    ensures |cover| == |out| ==> forall n :: n in cover <==> n in out
  {
    SameUnionNotSmaller(net.version, out, cover, Remainder(net, other));
  }

  lemma SameUnionNotSmaller(v: Version, out: seq<Network>, cover: seq<Network>, u: Region)
    requires AllNetworks(v, out) && AllNetworks(v, cover)
    requires MaximalTiling(BlocksOf(v, out), Width(v), u)
    requires CoversExactly(Elements(BlocksOf(v, cover)), u)
    ensures |out| <= |cover|
    ensures |cover| == |out| ==> forall n :: n in cover <==> n in out
  {
    var bs, cs := BlocksOf(v, out), BlocksOf(v, cover);
    forall i | 0 <= i < |cover|
      ensures Valid(cs[i], Width(v))
    {
      BlockFacts(cover[i]);
    }
    ElementsCount(cs);
    TilingIsMinimum(bs, Elements(cs), Width(v), u);
    if |cover| == |out| {
      TilingIsUnique(bs, Elements(cs), Width(v), u);
      SameBlocksSameNetworks(v, cover, out);
    }
  }

  lemma {:induction false} ElementsCount(bs: seq<Block>)
    ensures |Elements(bs)| <= |bs|
  {
    if |bs| == 0 {
    } else {
      var n := |bs| - 1;
      assert bs == bs[..n] + [bs[n]];
      ElementsCount(bs[..n]);
      assert Elements(bs) == Elements(bs[..n]) + {bs[n]};
    }
  }

  lemma SameBlocksSameNetworks(v: Version, ms: seq<Network>, ns: seq<Network>)
    requires AllNetworks(v, ms) && AllNetworks(v, ns)
    requires Elements(BlocksOf(v, ms)) == Elements(BlocksOf(v, ns))
    ensures forall n :: n in ms <==> n in ns
  {
    NetworksFromBlocks(v, ms, ns);
    NetworksFromBlocks(v, ns, ms);
  }

  lemma NetworksFromBlocks(v: Version, ms: seq<Network>, ns: seq<Network>)
    requires AllNetworks(v, ms) && AllNetworks(v, ns)
    requires Elements(BlocksOf(v, ms)) <= Elements(BlocksOf(v, ns))
    ensures forall n :: n in ms ==> n in ns
  {
    forall i | 0 <= i < |ms|
      ensures ms[i] in ns
    {
      assert BlocksOf(v, ms)[i] in Elements(BlocksOf(v, ns));
      var j :| 0 <= j < |ns| && BlocksOf(v, ns)[j] == BlockOf(ms[i]);
      BlockInjective(ms[i], ns[j]);
    }
  }

  // ----- summarize

  datatype Item = Address(version: Version, value: nat) | Net(network: Network) | Other

  ghost predicate ValidItem(item: Item) {
    match item
    case Address(v, a) => (v == IP4 || v == IP6) && a < Pow2(Width(v))
    case Net(n) => (n.version == IP4 || n.version == IP6) && ValidNetwork(n)
    case Other => true
  }

  predicate OfVersion(item: Item, v: Version) {
    match item
    case Address(w, _) => w == v
    case Net(n) => n.version == v
    case Other => false
  }

  ghost predicate Holds(item: Item, a: int) {
    match item
    case Address(_, b) => a == b
    case Net(n) => n.address <= a <= Last(n)
    case Other => false
  }

  ghost predicate InItems(a: int, items: seq<Item>) {
    exists i :: 0 <= i < |items| && Holds(items[i], a)
  }

  /** The union of the given addresses and networks. */
  ghost function ItemsRegion(items: seq<Item>): Region {
    iset a: int | InItems(a, items)
  }

  ghost predicate InFamily(a: int, items: seq<Item>, v: Version) {
    exists i :: 0 <= i < |items| && OfVersion(items[i], v) && Holds(items[i], a)
  }

  ghost predicate HasFamily(items: seq<Item>, v: Version) {
    exists i :: 0 <= i < |items| && OfVersion(items[i], v)
  }

  ghost predicate OneVersion(items: seq<Item>, v: Version) {
    forall i :: 0 <= i < |items| ==> OfVersion(items[i], v)
  }

  /** spans are the ranges of the items of one family. */
  ghost predicate Collects(v: Version, items: seq<Item>, spans: seq<Span>) {
    && WellFormed(spans)
    && (forall s :: s in spans ==> s.hi < Pow2(Width(v)))
    && (forall a :: InSpans(a, spans) <==> InFamily(a, items, v))
    && (spans != [] <==> HasFamily(items, v))
  }

  function SpanOf(item: Item): Span
    requires !item.Other?
  {
    match item
    case Address(_, a) => Span(a, a)
    case Net(n) => Span(n.address, Last(n))
  }

  lemma CollectItem(v: Version, items: seq<Item>, spans: seq<Span>, item: Item)
    requires Collects(v, items, spans) && ValidItem(item)
    ensures OfVersion(item, v) ==> Collects(v, items + [item], spans + [SpanOf(item)])
    ensures !OfVersion(item, v) ==> Collects(v, items + [item], spans)
  {
    FamilyAppend(v, items, item);
    if OfVersion(item, v) {
      SpanHolds(item, v);
      CollectSpan(v, items, spans, item, SpanOf(item));
    }
  }

  lemma CollectSpan(v: Version, items: seq<Item>, spans: seq<Span>, item: Item, s: Span)
    requires Collects(v, items, spans) && OfVersion(item, v)
    requires s.lo <= s.hi < Pow2(Width(v)) && forall a :: Holds(item, a) <==> s.lo <= a <= s.hi
    ensures Collects(v, items + [item], spans + [s])
  {
    FamilyAppend(v, items, item);
    AppendSpan(spans, s);
  }

  lemma SpanHolds(item: Item, v: Version)
    requires ValidItem(item) && OfVersion(item, v)
    ensures SpanOf(item).lo <= SpanOf(item).hi < Pow2(Width(v))
    ensures forall a :: Holds(item, a) <==> SpanOf(item).lo <= a <= SpanOf(item).hi
  {
    if item.Net? {
      BlockFacts(item.network);
    }
  }

  lemma FamilyAppend(v: Version, items: seq<Item>, item: Item)
    ensures HasFamily(items + [item], v) <==> HasFamily(items, v) || OfVersion(item, v)
    ensures forall a ::
      InFamily(a, items + [item], v) <==> InFamily(a, items, v) || (OfVersion(item, v) && Holds(item, a))
  {
    var items' := items + [item];
    assert items'[|items|] == item;
    if HasFamily(items, v) {
      var i :| 0 <= i < |items| && OfVersion(items[i], v);
      assert items'[i] == items[i];
    }
    forall a | InFamily(a, items, v)
      ensures InFamily(a, items', v)
    {
      var i :| 0 <= i < |items| && OfVersion(items[i], v) && Holds(items[i], a);
      assert items'[i] == items[i];
    }
  }

  /** The networks of one family: `IpNNetwork((IpNAddress(network_int), IpNMask("/prefixlen")))`. */
  method SummarizeFamily(v: Version, spans: seq<Span>) returns (out: seq<Network>)
    requires WellFormed(spans) && forall s :: s in spans ==> s.hi < Pow2(Width(v))
    ensures AllNetworks(v, out)
    ensures Ascending(BlocksOf(v, out))
    ensures MaximalTiling(BlocksOf(v, out), Width(v), UnionOf(spans))
    ensures spans == [] ==> out == []
  {
    var prefixes := SummarizeSpans(spans, Width(v));
    ghost var bs := Blocks(Width(v), prefixes);
    out := [];
    for i := 0 to |prefixes|
      invariant |out| == i && AllNetworks(v, out)
      invariant forall j :: 0 <= j < i ==> BlockOf(out[j]) == bs[j]
    {
      assert Valid(bs[i], Width(v));
      PrefixNetwork(v, prefixes[i]);
      out := out + [NetworkOf(v, prefixes[i].network, MaskInt(Width(v), prefixes[i].prefixlen))];
    }
    assert BlocksOf(v, out) == bs;
    TilingBases(bs, Width(v), UnionOf(spans));
    assert out != [] ==> InSpans(bs[0].base, spans);
  }

  lemma PrefixNetwork(v: Version, p: Prefix)
    requires p.prefixlen <= Width(v) && Valid(Block(p.network, Width(v) - p.prefixlen), Width(v))
    ensures var n := NetworkOf(v, p.network, MaskInt(Width(v), p.prefixlen));
      ValidNetwork(n) && n.version == v && BlockOf(n) == Block(p.network, Width(v) - p.prefixlen)
  {
    NetworkOfBlock(v, p.network, p.prefixlen);
  }

  lemma TilingBases(bs: seq<Block>, bits: nat, u: Region)
    requires MaximalTiling(bs, bits, u)
    ensures forall i :: 0 <= i < |bs| ==> bs[i].base in u
  {
    forall i | 0 <= i < |bs|
      ensures bs[i].base in u
    {
      assert In(bs[i].base, bs[i]);
    }
  }

  /** The first loop of `summarize`: the spans of each family, or nothing once a foreign item is met. */
  method CollectSpans(items: seq<Item>) returns (r: Option<(seq<Span>, seq<Span>)>)
    requires forall i :: 0 <= i < |items| ==> ValidItem(items[i])
    ensures r.None? <==> Other in items
    ensures r.Some? ==> Collects(IP4, items, r.value.0) && Collects(IP6, items, r.value.1)
  {
    var spans4, spans6: seq<Span> := [], [];
    ghost var seen: seq<Item> := [];
    for i := 0 to |items|
      invariant seen == items[..i] && Other !in seen
      invariant Collects(IP4, seen, spans4)
      invariant Collects(IP6, seen, spans6)
    {
      var item := items[i];
      TakeNext(items, i);
      if item.Other? {
        return None;
      }
      CollectItem(IP4, seen, spans4, item);
      CollectItem(IP6, seen, spans6, item);
      if OfVersion(item, IP4) {
        spans4 := spans4 + [SpanOf(item)];
      } else {
        spans6 := spans6 + [SpanOf(item)];
      }
      seen := seen + [item];
    }
    TakeAll(items);
    r := Some((spans4, spans6));
  }

  /** out is the ascending maximal tiling of the union of the items. */
  ghost predicate Summarizes(v: Version, items: seq<Item>, out: seq<Network>) {
    && AllNetworks(v, out) && Ascending(BlocksOf(v, out))
    && MaximalTiling(BlocksOf(v, out), Width(v), ItemsRegion(items))
  }

  /** `IpNetwork.summarize` */
  method Summarize(items: seq<Item>) returns (r: Result<seq<Network>, Error>)
    requires forall i :: 0 <= i < |items| ==> ValidItem(items[i])
    ensures r == Err(NotAnAddress) <==> Other in items
    ensures r == Err(MixedVersions) <==> Other !in items && HasFamily(items, IP4) && HasFamily(items, IP6)
    ensures r.Err? ==> r.error == NotAnAddress || r.error == MixedVersions
    ensures r.Ok? && OneVersion(items, IP4) ==> Summarizes(IP4, items, r.value)
    ensures r.Ok? && OneVersion(items, IP6) ==> Summarizes(IP6, items, r.value)
  {
    var spans := CollectSpans(items);
    if spans.None? {
      return Err(NotAnAddress);
    }
    var spans4, spans6 := spans.value.0, spans.value.1;
    if spans4 != [] && spans6 != [] {
      return Err(MixedVersions);
    }
    var out4 := SummarizeFamily(IP4, spans4);
    var out6 := SummarizeFamily(IP6, spans6);
    r := Ok(out4 + out6);
    if OneVersion(items, IP4) {
      OneFamily(IP4, IP6, items, spans4, spans6);
      assert out4 + out6 == out4;
    }
    if OneVersion(items, IP6) {
      OneFamily(IP6, IP4, items, spans6, spans4);
      assert out4 + out6 == out6;
    }
  }

  lemma OneFamily(v: Version, w: Version, items: seq<Item>, spans: seq<Span>, others: seq<Span>)
    requires Collects(v, items, spans) && Collects(w, items, others) && v != w
    requires OneVersion(items, v)
    ensures UnionOf(spans) == ItemsRegion(items) && others == []
  {
    forall a
      ensures a in UnionOf(spans) <==> a in ItemsRegion(items)
    {
      assert InSpans(a, spans) <==> InFamily(a, items, v);
    }
  }

  /** The summary is the smallest set of networks with the union of the items, and the only one
      of its size. */
  lemma SummaryIsMinimum(v: Version, items: seq<Item>, out: seq<Network>, cover: seq<Network>)
    requires Summarizes(v, items, out) && AllNetworks(v, cover)
    requires CoversExactly(Elements(BlocksOf(v, cover)), ItemsRegion(items))
    ensures |out| <= |cover|
    ensures |cover| == |out| ==> forall n :: n in cover <==> n in out
  {
    SameUnionNotSmaller(v, out, cover, ItemsRegion(items));
  }

  // ----- the same in terms of addresses

  ghost predicate InSomeNetwork(ns: seq<Network>, v: Version, a: nat) {
    exists i :: 0 <= i < |ns| && Contains(ns[i], v, a)
  }

  lemma TilingContains(v: Version, out: seq<Network>, u: Region, a: nat)
    requires AllNetworks(v, out) && MaximalTiling(BlocksOf(v, out), Width(v), u)
    ensures InSomeNetwork(out, v, a) <==> a in u
  {
    var bs := BlocksOf(v, out);
    forall i | 0 <= i < |out|
      ensures Contains(out[i], v, a) <==> In(a, bs[i])
    {
      BlockFacts(out[i]);
    }
    assert a in u <==> Covers(Elements(bs), a);
    if InSomeNetwork(out, v, a) {
      var i :| 0 <= i < |out| && Contains(out[i], v, a);
      assert bs[i] in Elements(bs);
    }
    if Covers(Elements(bs), a) {
      var b :| b in Elements(bs) && In(a, b);
      var i :| 0 <= i < |bs| && bs[i] == b;
    }
  }

  /** An address is in the summary exactly when it was given or a given network contains it. */
  lemma SummaryContains(v: Version, items: seq<Item>, out: seq<Network>, a: nat)
    requires Summarizes(v, items, out) && OneVersion(items, v)
    ensures InSomeNetwork(out, v, a) <==>
      exists i :: 0 <= i < |items| &&
        (items[i] == Address(v, a) || (items[i].Net? && Contains(items[i].network, v, a)))
  {
    TilingContains(v, out, ItemsRegion(items), a);
    forall i | 0 <= i < |items|
      ensures Holds(items[i], a) <==>
        items[i] == Address(v, a) || (items[i].Net? && Contains(items[i].network, v, a))
    {
      assert OfVersion(items[i], v);
    }
    assert a in ItemsRegion(items) <==> InItems(a, items);
  }

  /** An address is in what exclusion yields exactly when the network contains it and other does not. */
  lemma ExcludeContains(net: Network, other: Network, out: seq<Network>, a: nat)
    requires Excludes(net, other, out) && net.version == other.version
    ensures InSomeNetwork(out, net.version, a) <==>
      Contains(net, net.version, a) && !Contains(other, net.version, a)
  {
    TilingContains(net.version, out, Remainder(net, other), a);
  }
}
