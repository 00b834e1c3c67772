/** IP networks of both families: construction, containment, subnets and supernets. */
module IpNetwork {
  import opened Bits
  import opened Dyadic
  import opened IpMask
  import opened Options

  /** An address family, identified by its width in bits. */
  datatype Version = Version(bits: nat)

  const IP4 := Version(32)
  const IP6 := Version(128)

  datatype Error = HostBitsSet | BadMask | PrefixNotLonger | PrefixTooLong | PrefixNotShorter
                 | PrefixNegative | NotContained | NotAnAddress | MixedVersions

  function Width(v: Version): nat {
    v.bits
  }

  /** `IP4__MASK` and `IP6__MASK` */
  function AllOnes(v: Version): nat {
    Pow2(Width(v)) - 1
  }

  /** The constants the source writes out. */
  lemma FamilyMasks()
    ensures AllOnes(IP4) == 0xFFFF_FFFF && AllOnes(IP6) == 0xFFFF_FFFF_FFFF_FFFF_FFFF_FFFF_FFFF_FFFF
  {
    Pow2_32();
    Pow2_64();
    Pow2Add(64, 64);
  }

  /** The two stored fields; the address never has a bit outside the mask. */
  datatype Network = Network(version: Version, address: nat, mask: nat)

  function PrefixLen(n: Network): nat {
    PrefixLength(n.mask)
  }

  /** The `last` property. */
  function Last(n: Network): nat {
    AndNonNegative(Not(n.mask), AllOnes(n.version));
    n.address + And(Not(n.mask), AllOnes(n.version))
  }

  /** What every constructor establishes. */
  ghost predicate ValidNetwork(n: Network) {
    var w := Width(n.version);
    && PrefixLen(n) <= w && n.mask == MaskInt(w, PrefixLen(n))
    && n.address < Pow2(w) && n.address % Pow2(w - PrefixLen(n)) == 0
  }

  /** `IpNNetwork((address, mask))`: host bits are masked away. */
  function NetworkOf(v: Version, address: nat, mask: nat): Network {
    AndNonNegative(address, mask);
    Network(v, And(address, mask), mask)
  }

  /** The mask constructor's check followed by the network's tuple constructor. */
  function FromTuple(v: Version, address: nat, mask: nat, strict: bool): Result<Network, Error> {
    if mask > AllOnes(v) || !IsContiguousMask(mask, Width(v)) then Err(BadMask)
    else if strict && And(And(address, Not(mask)), AllOnes(v)) != 0 then Err(HostBitsSet)
    else Ok(NetworkOf(v, address, mask))
  }

  // ----- a network is a block

  ghost function BlockOf(n: Network): Block
    requires ValidNetwork(n)
  {
    Block(n.address, Width(n.version) - PrefixLen(n))
  }

  lemma BlockFacts(n: Network)
    requires ValidNetwork(n)
    ensures Valid(BlockOf(n), Width(n.version))
    ensures Last(n) == End(BlockOf(n)) - 1
  {
    var w, p := Width(n.version), PrefixLen(n);
    HostMaskValue(w, p);
    AlignedFits(n.address, w - p, w);
  }

  /** An aligned block whose first address is in range ends in range. */
  lemma AlignedFits(a: nat, n: nat, bits: nat)
    requires n <= bits && a < Pow2(bits) && a % Pow2(n) == 0
    ensures a + Pow2(n) <= Pow2(bits)
  {
    Pow2Monotone(n, bits);
    Pow2Add(bits - n, n);
    DivModUnique(0, Pow2(bits), 0, 0);
    LaminarEither(Block(a, n), Block(0, bits));
  }

  lemma BlockInjective(m: Network, n: Network)
    requires ValidNetwork(m) && ValidNetwork(n) && m.version == n.version
    requires BlockOf(m) == BlockOf(n)
    ensures m == n
  {
  }

  lemma NetworkOfBlock(v: Version, address: nat, prefixlen: nat)
    requires address < Pow2(Width(v)) && prefixlen <= Width(v)
    ensures var n := NetworkOf(v, address, MaskInt(Width(v), prefixlen));
      ValidNetwork(n) && PrefixLen(n) == prefixlen
      && n.address == address - address % Pow2(Width(v) - prefixlen)
  {
    var w := Width(v);
    AndMask(address, w, prefixlen);
    MaskPrefixLength(w, prefixlen);
    RoundDown(address, Pow2(w - prefixlen));
  }

  /** The constructor accepts exactly the masks of a prefix length, in strict mode only with
      no host bit set, and always yields the block around the given address. */
  lemma FromTupleSpec(v: Version, address: nat, mask: nat, strict: bool)
    requires address < Pow2(Width(v))
    ensures var r := FromTuple(v, address, mask, strict);
      && (r == Err(BadMask) <==> !exists k: nat :: k <= Width(v) && mask == MaskInt(Width(v), k))
      && (forall k: nat :: k <= Width(v) && mask == MaskInt(Width(v), k) ==>
            (r == Err(HostBitsSet) <==> strict && address % Pow2(Width(v) - k) != 0))
      && (r.Ok? ==> ValidNetwork(r.value) && r.value.mask == mask && In(address, BlockOf(r.value)))
  {
    var w := Width(v);
    MaskAccepted(v, mask);
    forall k: nat | k <= w && mask == MaskInt(w, k)
      ensures ValidNetwork(NetworkOf(v, address, mask)) && In(address, BlockOf(NetworkOf(v, address, mask)))
      ensures And(And(address, Not(mask)), AllOnes(v)) == address % Pow2(w - k)
    {
      MaskedNetwork(v, address, k);
      HostPart(address, w, k);
    }
  }

  lemma MaskAccepted(v: Version, mask: nat)
    ensures mask <= AllOnes(v) && IsContiguousMask(mask, Width(v)) <==>
      exists k: nat :: k <= Width(v) && mask == MaskInt(Width(v), k)
  {
    var w := Width(v);
    if mask < Pow2(w) {
      ContiguousIffMask(mask, w);
    }
    forall k: nat | k <= w
      ensures MaskInt(w, k) < Pow2(w)
    {
      MaskIntValue(w, k);
    }
  }

  lemma MaskedNetwork(v: Version, address: nat, k: nat)
    requires address < Pow2(Width(v)) && k <= Width(v)
    ensures var n := NetworkOf(v, address, MaskInt(Width(v), k)); ValidNetwork(n) && In(address, BlockOf(n))
  {
    NetworkOfBlock(v, address, k);
    RoundDown(address, Pow2(Width(v) - k));
  }

  /** `address & ~mask & all_ones` is the part of the address below the prefix. */
  lemma HostPart(address: nat, w: nat, k: nat)
    requires address < Pow2(w) && k <= w
    ensures And(And(address, Not(MaskInt(w, k))), Pow2(w) - 1) == address % Pow2(w - k)
  {
    var r := address % Pow2(w - k);
    AndNot(address, MaskInt(w, k));
    AndMask(address, w, k);
    RoundDown(address, Pow2(w - k));
    AndLowMask(r, w);
    DivModUnique(r, Pow2(w), 0, r);
  }

  /** Clearing the bits of m leaves what masking with m removes. */
  lemma {:induction false} AndNot(a: nat, m: nat)
    ensures And(a, Not(m)) == a - And(a, m)
  {
    if a == 0 || m == 0 {
    } else {
      AndNot(a / 2, m / 2);
      assert Not(m) / 2 == Not(m / 2) && Not(m) % 2 == 1 - m % 2;
    }
  }

  // ----- containment

  /** `network.__contains__(address)` */
  predicate Contains(n: Network, v: Version, a: nat) {
    n.version == v && n.address <= a <= Last(n)
  }

  predicate Overlaps(m: Network, n: Network) {
    m.version == n.version && m.address <= Last(n) && n.address <= Last(m)
  }

  predicate SubnetOf(m: Network, n: Network) {
    m.version == n.version && n.address <= m.address && Last(m) <= Last(n)
  }

  /** The range test agrees with the mask test. */
  lemma ContainsIffMasked(n: Network, a: nat)
    requires ValidNetwork(n) && a < Pow2(Width(n.version))
    ensures Contains(n, n.version, a) <==> And(a, n.mask) == n.address
  {
    var w, p := Width(n.version), PrefixLen(n);
    BlockFacts(n);
    AndMask(a, w, p);
    RoundDownIff(a, n.address, Pow2(w - p));
  }

  /** Networks are laminar: they share an address exactly when one contains the other. */
  lemma OverlapsIffNested(m: Network, n: Network)
    requires ValidNetwork(m) && ValidNetwork(n)
    ensures Overlaps(m, n) <==> SubnetOf(m, n) || SubnetOf(n, m)
    ensures Overlaps(m, n) <==> exists a: nat :: Contains(m, n.version, a) && Contains(n, m.version, a)
  {
    BlockFacts(m);
    BlockFacts(n);
    LaminarEither(BlockOf(m), BlockOf(n));
    if Overlaps(m, n) {
      var a := if m.address <= n.address then n.address else m.address;
      assert Contains(m, n.version, a) && Contains(n, m.version, a);
    }
  }

  /** `subnet_of` is inclusion of address sets. */
  lemma SubnetOfIffIncluded(m: Network, n: Network)
    requires ValidNetwork(m) && ValidNetwork(n)
    ensures SubnetOf(m, n) <==> forall v, a: nat :: Contains(m, v, a) ==> Contains(n, v, a)
  {
    BlockFacts(m);
    BlockFacts(n);
    if forall v, a: nat :: Contains(m, v, a) ==> Contains(n, v, a) {
      assert Contains(m, m.version, m.address);
      assert Contains(m, m.version, Last(m));
    }
  }

  /** Two networks of one prefix length that share an address are the same network. */
  lemma SamePrefixSameNetwork(m: Network, n: Network)
    requires ValidNetwork(m) && ValidNetwork(n)
    requires Overlaps(m, n) && PrefixLen(m) == PrefixLen(n)
    ensures m == n
  {
    BlockFacts(m);
    BlockFacts(n);
    SameOrderEqual(BlockOf(m), BlockOf(n));
  }

  // ----- supernets

  function Supernet(n: Network, prefixlenDiff: int, newPrefix: Option<int>): Result<Network, Error>
    requires PrefixLen(n) <= Width(n.version)
  {
    var p := PrefixLen(n);
    if p == 0 then Ok(n)
    else if newPrefix.Some? && newPrefix.value >= p then Err(PrefixNotShorter)
    else if newPrefix.None? && prefixlenDiff < 1 then Err(PrefixNotShorter)
    else
      var q := if newPrefix.Some? then newPrefix.value else p - prefixlenDiff;
      if q < 0 then Err(PrefixNegative)
      else Ok(NetworkOf(n.version, n.address, MaskInt(Width(n.version), q)))
  }

  /** A supernet is the only network of its prefix length around the given one. */
  lemma SupernetSpec(n: Network, prefixlenDiff: int, newPrefix: Option<int>)
    requires ValidNetwork(n)
    ensures var p := PrefixLen(n);
      var q := if newPrefix.Some? then newPrefix.value else p - prefixlenDiff;
      var r := Supernet(n, prefixlenDiff, newPrefix);
      && (p == 0 ==> r == Ok(n))
      && (p > 0 ==> (r.Ok? <==> 0 <= q < p))
      && (p > 0 ==> (r == Err(PrefixNotShorter) <==> q >= p) && (r == Err(PrefixNegative) <==> q < 0))
      && (p > 0 && r.Ok? ==> ValidNetwork(r.value) && PrefixLen(r.value) == q && SubnetOf(n, r.value))
      && (p > 0 && r.Ok? ==> forall m :: ValidNetwork(m) && PrefixLen(m) == q && SubnetOf(n, m) ==> m == r.value)
  {
    var p := PrefixLen(n);
    var q := if newPrefix.Some? then newPrefix.value else p - prefixlenDiff;
    if p > 0 && 0 <= q < p {
      SupernetAt(n, q);
    }
  }

  lemma SupernetAt(n: Network, q: nat)
    requires ValidNetwork(n) && q < PrefixLen(n)
    ensures var m := NetworkOf(n.version, n.address, MaskInt(Width(n.version), q));
      && ValidNetwork(m) && PrefixLen(m) == q && SubnetOf(n, m)
      && forall m' :: ValidNetwork(m') && PrefixLen(m') == q && SubnetOf(n, m') ==> m' == m
  {
    var m := NetworkOf(n.version, n.address, MaskInt(Width(n.version), q));
    NetworkOfBlock(n.version, n.address, q);
    SupernetContains(n, m);
    forall m' | ValidNetwork(m') && PrefixLen(m') == q && SubnetOf(n, m')
      ensures m' == m
    {
      CommonSubnet(n, m, m');
      SamePrefixSameNetwork(m', m);
    }
  }

  /** Rounding the start of n down to a shorter prefix gives a network around n. */
  lemma SupernetContains(n: Network, m: Network)
    requires ValidNetwork(n) && ValidNetwork(m) && m.version == n.version && PrefixLen(m) < PrefixLen(n)
    requires m.address == n.address - n.address % Pow2(Width(n.version) - PrefixLen(m))
    ensures SubnetOf(n, m)
  {
    BlockFacts(n);
    BlockFacts(m);
    RoundDown(n.address, Pow2(Width(n.version) - PrefixLen(m)));
    Laminar(BlockOf(n), BlockOf(m));
  }

  lemma CommonSubnet(n: Network, m: Network, m': Network)
    requires ValidNetwork(n) && SubnetOf(n, m) && SubnetOf(n, m')
    ensures Overlaps(m', m)
  {
    BlockFacts(n);
  }

  // ----- subnets

  /** The addresses at which the subnets of n at prefix length q start, in order. */
  ghost predicate SubnetsAt(n: Network, q: nat, subs: seq<Network>)
    requires q <= Width(n.version)
  {
    forall i {:trigger subs[i]} :: 0 <= i < |subs| ==>
      && ValidNetwork(subs[i]) && subs[i].version == n.version && PrefixLen(subs[i]) == q
      && subs[i].address == n.address + ShiftLeft(i, Width(n.version) - q)
  }

  method Subnets(n: Network, prefixlenDiff: int, newPrefix: Option<int>) returns (r: Result<seq<Network>, Error>)
    requires ValidNetwork(n)
    ensures var p, w := PrefixLen(n), Width(n.version);
      var q := if newPrefix.Some? then newPrefix.value else p + prefixlenDiff;
      && (p == w ==> r == Ok([n]))
      && (p < w ==> (r.Ok? <==> p < q <= w))
      && (p < w ==> (r == Err(PrefixNotLonger) <==> q <= p) && (r == Err(PrefixTooLong) <==> q > w))
      && (p < w && r.Ok? ==> |r.value| == Pow2(q - p) && SubnetsAt(n, q, r.value))
  {
    var p, w := PrefixLen(n), Width(n.version);
    if p == w {
      return Ok([n]);
    }
    if newPrefix.Some? {
      if newPrefix.value <= p {
        return Err(PrefixNotLonger);
      }
    } else if prefixlenDiff < 1 {
      return Err(PrefixNotLonger);
    }
    var q := if newPrefix.Some? then newPrefix.value else p + prefixlenDiff;
    if q > w {
      return Err(PrefixTooLong);
    }
    var subs := EnumerateSubnets(n, q);
    r := Ok(subs);
  }

  /** The generator loop over `range(address, last + 1, step)`. */
  method EnumerateSubnets(n: Network, q: nat) returns (subs: seq<Network>)
    requires ValidNetwork(n) && PrefixLen(n) <= q <= Width(n.version)
    ensures |subs| == Pow2(q - PrefixLen(n)) && SubnetsAt(n, q, subs)
  {
    var mask := MaskInt(Width(n.version), q);
    var step := Pow2(Width(n.version) - q);
    ghost var count := Pow2(q - PrefixLen(n));
    var start, last := n.address, Last(n);
    subs := [];
    SubnetCount(n, q);
    ShiftLeftValue(0, Width(n.version) - q);
    while start <= last
      invariant start == n.address + ShiftLeft(|subs|, Width(n.version) - q)
      invariant |subs| <= count
      invariant SubnetsAt(n, q, subs)
      decreases count - |subs|
    {
      SubnetFits(n, q, |subs|, start);
      ShiftLeftNext(|subs|, Width(n.version) - q);
      subs := subs + [NetworkOf(n.version, start, mask)];
      start := start + step;
    }
    ShiftLeftMonotone(count, |subs|, Width(n.version) - q);
  }

  lemma SubnetCount(n: Network, q: nat)
    requires ValidNetwork(n) && PrefixLen(n) <= q <= Width(n.version)
    ensures Last(n) == n.address + ShiftLeft(Pow2(q - PrefixLen(n)), Width(n.version) - q) - 1
  {
    BlockFacts(n);
    ShiftLeftPow2(q - PrefixLen(n), Width(n.version) - q);
  }

  /** The i-th start inside n is a real network start, and it is not past the last slot. */
  lemma SubnetFits(n: Network, q: nat, i: nat, start: nat)
    requires ValidNetwork(n) && PrefixLen(n) <= q <= Width(n.version)
    requires start == n.address + ShiftLeft(i, Width(n.version) - q) && start <= Last(n)
    ensures i < Pow2(q - PrefixLen(n))
    ensures var s := NetworkOf(n.version, start, MaskInt(Width(n.version), q));
      ValidNetwork(s) && PrefixLen(s) == q && s.address == start
  {
    var p, w := PrefixLen(n), Width(n.version);
    BlockFacts(n);
    SubnetCount(n, q);
    ShiftLeftMonotone(Pow2(q - p), i, w - q);
    DividesDown(n.address, w - q, w - p);
    ShiftAligned(n.address, i, w - q);
    NetworkOfBlock(n.version, start, q);
  }

  /** One slot of the enumeration, as a range of addresses. */
  lemma SubnetRange(n: Network, q: nat, subs: seq<Network>, i: nat)
    requires ValidNetwork(n) && PrefixLen(n) <= q <= Width(n.version)
    requires SubnetsAt(n, q, subs) && i < |subs| == Pow2(q - PrefixLen(n))
    ensures Last(subs[i]) == n.address + ShiftLeft(i + 1, Width(n.version) - q) - 1
    ensures SubnetOf(subs[i], n)
  {
    BlockFacts(subs[i]);
    SubnetCount(n, q);
    ShiftLeftNext(i, Width(n.version) - q);
    ShiftLeftMonotone(i + 1, |subs|, Width(n.version) - q);
  }

  lemma SubnetFor(n: Network, q: nat, subs: seq<Network>, a: nat) returns (i: nat)
    requires ValidNetwork(n) && PrefixLen(n) <= q <= Width(n.version)
    requires SubnetsAt(n, q, subs) && |subs| == Pow2(q - PrefixLen(n))
    requires Contains(n, n.version, a)
    ensures i < |subs| && Contains(subs[i], n.version, a)
  {
    SubnetCount(n, q);
    i := SlotOf(a - n.address, Width(n.version) - q);
    ShiftLeftMonotone(|subs|, i, Width(n.version) - q);
    SubnetRange(n, q, subs, i);
  }

  /** The subnets at a longer prefix tile the network, and each leads back to it. */
  lemma SubnetsTile(n: Network, q: nat, subs: seq<Network>)
    requires ValidNetwork(n) && PrefixLen(n) <= q <= Width(n.version)
    requires |subs| == Pow2(q - PrefixLen(n)) && SubnetsAt(n, q, subs)
    ensures forall i, j :: 0 <= i < j < |subs| ==> !Overlaps(subs[i], subs[j])
    ensures forall i :: 0 <= i < |subs| ==> SubnetOf(subs[i], n)
    ensures forall a: nat :: Contains(n, n.version, a) ==>
      exists i :: 0 <= i < |subs| && Contains(subs[i], n.version, a)
    ensures PrefixLen(n) < q ==>
      forall i, d :: 0 <= i < |subs| ==> Supernet(subs[i], d, Some(PrefixLen(n))) == Ok(n)
  {
    forall i, j | 0 <= i < j < |subs|
      ensures !Overlaps(subs[i], subs[j])
    {
      SubnetRange(n, q, subs, i);
      ShiftLeftMonotone(i + 1, j, Width(n.version) - q);
    }
    forall i | 0 <= i < |subs|
      ensures SubnetOf(subs[i], n)
      ensures PrefixLen(n) < q ==> forall d :: Supernet(subs[i], d, Some(PrefixLen(n))) == Ok(n)
    {
      SubnetRange(n, q, subs, i);
      forall d | PrefixLen(n) < q
        ensures Supernet(subs[i], d, Some(PrefixLen(n))) == Ok(n)
      {
        SupernetSpec(subs[i], d, Some(PrefixLen(n)));
      }
    }
    forall a: nat | Contains(n, n.version, a)
      ensures exists i :: 0 <= i < |subs| && Contains(subs[i], n.version, a)
    {
      var i := SubnetFor(n, q, subs, a);
    }
  }
}
