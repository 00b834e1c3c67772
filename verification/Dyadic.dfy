/** The geometry behind CIDR aggregation: aligned power-of-two blocks of addresses,
    and why the maximal blocks of a region are its one smallest tiling. */
module Dyadic {
  import opened Bits

  /** The addresses base .. base + 2^order - 1; order is the number of host bits. */
  datatype Block = Block(base: nat, order: nat)

  /** A region of the address space. */
  type Region = iset<int>

  function End(b: Block): nat {
    b.base + Pow2(b.order)
  }

  /** A block that a network of a bits-wide address family can denote. */
  ghost predicate Valid(b: Block, bits: nat) {
    b.base % Pow2(b.order) == 0 && End(b) <= Pow2(bits)
  }

  ghost predicate AllValid(bs: set<Block>, bits: nat) {
    forall b :: b in bs ==> Valid(b, bits)
  }

  predicate In(a: int, b: Block) {
    b.base <= a < End(b)
  }

  predicate Within(b: Block, c: Block) {
    c.base <= b.base && End(b) <= End(c)
  }

  predicate Overlap(b: Block, c: Block) {
    b.base < End(c) && c.base < End(b)
  }

  ghost predicate Inside(b: Block, u: Region) {
    forall a :: In(a, b) ==> a in u
  }

  predicate Between(lo: int, a: int, hi: int) {
    lo <= a <= hi
  }

  ghost function Interval(lo: int, hi: int): Region {
    iset a: int | Between(lo, a, hi)
  }

  ghost predicate Covers(bs: set<Block>, a: int) {
    exists b :: b in bs && In(a, b)
  }

  ghost predicate CoversExactly(bs: set<Block>, u: Region) {
    forall a :: a in u <==> Covers(bs, a)
  }

  function Elements(bs: seq<Block>): set<Block> {
    set b | b in bs
  }

  /** b lies in u, and no valid block strictly larger than b around it does. */
  ghost predicate Maximal(b: Block, bits: nat, u: Region) {
    && Inside(b, u)
    && forall c :: Valid(c, bits) && Within(b, c) && Inside(c, u) ==> c == b
  }

  ghost predicate Ascending(bs: seq<Block>) {
    forall i, j :: 0 <= i < j < |bs| ==> End(bs[i]) <= bs[j].base
  }

  ghost predicate Disjoint(bs: seq<Block>) {
    forall i, j :: 0 <= i < j < |bs| ==> !Overlap(bs[i], bs[j])
  }

  /** bs partitions u into maximal blocks. */
  ghost predicate MaximalTiling(bs: seq<Block>, bits: nat, u: Region) {
    && (forall i :: 0 <= i < |bs| ==> Valid(bs[i], bits) && Maximal(bs[i], bits, u))
    && Disjoint(bs)
    && CoversExactly(Elements(bs), u)
  }

  // ----- blocks are laminar

  /** Two aligned blocks either nest or are apart. */
  lemma Laminar(b: Block, c: Block)
    requires b.base % Pow2(b.order) == 0 && c.base % Pow2(c.order) == 0
    requires Overlap(b, c) && b.order <= c.order
    ensures Within(b, c)
  {
    Pow2Add(c.order - b.order, b.order);
    MultiplesNest(b.base, c.base, Pow2(b.order), Pow2(c.order - b.order));
  }

  lemma MultiplesNest(x: int, y: int, s: nat, m: nat)
    requires s > 0 && m > 0 && m * s > 0 && x % s == 0 && y % (m * s) == 0
    requires x < y + m * s && y < x + s
    ensures y <= x && x + s <= y + m * s
  {
    var p, q := x / s, y / (m * s);
    var k := q * m;
    assert x == p * s;
    assert y == q * (m * s) == k * s;
    assert y + m * s == (k + m) * s;
    assert x + s == (p + 1) * s;
    Cancel(p, k + m, s);
    Cancel(k, p + 1, s);
    ScaleLe(k, p, s);
    ScaleLe(p + 1, k + m, s);
  }

  lemma Cancel(x: int, y: int, s: nat)
    requires s > 0 && x * s < y * s
    ensures x < y
  {
    if y <= x {
      ScaleLe(y, x, s);
    }
  }

  lemma ScaleLe(x: int, y: int, s: nat)
    requires x <= y
    ensures x * s <= y * s
  {
    assert y * s == x * s + (y - x) * s;
  }

  lemma LaminarEither(b: Block, c: Block)
    requires b.base % Pow2(b.order) == 0 && c.base % Pow2(c.order) == 0
    ensures Overlap(b, c) <==> Within(b, c) || Within(c, b)
  {
    if Overlap(b, c) {
      if b.order <= c.order {
        Laminar(b, c);
      } else {
        Laminar(c, b);
      }
    }
  }

  lemma SameOrderEqual(b: Block, c: Block)
    requires b.base % Pow2(b.order) == 0 && c.base % Pow2(c.order) == 0
    requires Overlap(b, c) && b.order == c.order
    ensures b == c
  {
    Laminar(b, c);
    Laminar(c, b);
  }

  lemma WithinEqual(b: Block, c: Block)
    requires Within(b, c)
    ensures b.order <= c.order
    ensures b.order == c.order ==> b == c
  {
    Pow2Order(b.order, c.order);
  }

  // ----- maximal blocks are the one smallest tiling

  ghost predicate HasMember(b: Block, cover: set<Block>) {
    exists c :: c in cover && Within(c, b)
  }

  /** Every block of bs has a member of cover inside it. */
  ghost predicate Represented(bs: seq<Block>, cover: set<Block>) {
    forall i :: 0 <= i < |bs| ==> HasMember(bs[i], cover)
  }

  lemma {:induction false} PigeonHole(bs: seq<Block>, cover: set<Block>)
    requires Disjoint(bs) && Represented(bs, cover)
    ensures |bs| <= |cover|
  {
    if |bs| == 0 {
    } else {
      var n := |bs| - 1;
      var c :| c in cover && Within(c, bs[n]);
      forall i | 0 <= i < n
        ensures HasMember(bs[..n][i], cover - {c})
      {
        var d :| d in cover && Within(d, bs[i]);
        assert d != c by { assert !Overlap(bs[i], bs[n]); }
      }
      PigeonHole(bs[..n], cover - {c});
    }
  }

  /** A cover block that meets a maximal block lies inside it. */
  lemma CoverNests(b: Block, c: Block, bits: nat, u: Region)
    requires Valid(b, bits) && Valid(c, bits)
    requires Maximal(b, bits, u) && Inside(c, u) && Overlap(b, c)
    ensures Within(c, b)
  {
    LaminarEither(b, c);
  }

  lemma CoverInside(cover: set<Block>, c: Block, u: Region)
    requires CoversExactly(cover, u) && c in cover
    ensures Inside(c, u)
  {
    forall a | In(a, c)
      ensures a in u
    {
      assert Covers(cover, a);
    }
  }

  /** Some cover block over a given address of a maximal block, nested in that block. */
  lemma CoverAt(b: Block, a: int, cover: set<Block>, bits: nat, u: Region) returns (c: Block)
    requires Valid(b, bits) && Maximal(b, bits, u) && In(a, b)
    requires AllValid(cover, bits) && CoversExactly(cover, u)
    ensures c in cover && In(a, c) && Within(c, b)
  {
    assert Covers(cover, a);
    c :| c in cover && In(a, c);
    CoverInside(cover, c, u);
    CoverNests(b, c, bits, u);
  }

  /** No set of valid blocks with the same union is smaller than the maximal tiling. */
  lemma TilingIsMinimum(bs: seq<Block>, cover: set<Block>, bits: nat, u: Region)
    requires MaximalTiling(bs, bits, u)
    requires AllValid(cover, bits) && CoversExactly(cover, u)
    ensures |bs| <= |cover|
  {
    TilingRepresented(bs, cover, bits, u);
    PigeonHole(bs, cover);
  }

  lemma TilingRepresented(bs: seq<Block>, cover: set<Block>, bits: nat, u: Region)
    requires MaximalTiling(bs, bits, u)
    requires AllValid(cover, bits) && CoversExactly(cover, u)
    ensures Represented(bs, cover)
  {
    forall i | 0 <= i < |bs|
      ensures HasMember(bs[i], cover)
    {
      var c := CoverAt(bs[i], bs[i].base, cover, bits, u);
    }
  }

  /** A cover that splits a tiling block has a member to spare. */
  lemma SplitBlockCosts(bs: seq<Block>, i: nat, cover: set<Block>, bits: nat, u: Region)
    requires MaximalTiling(bs, bits, u) && i < |bs|
    requires AllValid(cover, bits) && CoversExactly(cover, u)
    requires bs[i] !in cover
    ensures |bs| < |cover|
  {
    var b := bs[i];
    var c := CoverAt(b, b.base, cover, bits, u);
    var a := End(c);
    assert In(a, b) by { WithinEqual(c, b); }
    var d := CoverAt(b, a, cover, bits, u);
    TilingRepresented(bs, cover, bits, u);
    forall j | 0 <= j < |bs|
      ensures HasMember(bs[j], cover - {d})
    {
      if j == i {
        assert c in cover - {d};
      } else {
        var e :| e in cover && Within(e, bs[j]);
        assert !Overlap(bs[i], bs[j]) && !Overlap(bs[j], bs[i]);
        assert e != d;
      }
    }
    PigeonHole(bs, cover - {d});
  }

  /** The smallest tiling is unique: a cover of the same size is the same set of blocks. */
  lemma TilingIsUnique(bs: seq<Block>, cover: set<Block>, bits: nat, u: Region)
    requires MaximalTiling(bs, bits, u)
    requires AllValid(cover, bits) && CoversExactly(cover, u)
    requires |cover| <= |bs|
    ensures cover == Elements(bs)
  {
    forall i | 0 <= i < |bs|
      ensures bs[i] in cover
    {
      if bs[i] !in cover {
        SplitBlockCosts(bs, i, cover, bits, u);
      }
    }
    assert Elements(bs) <= cover;
    if c :| c in cover && c !in Elements(bs) {
      forall j | 0 <= j < |bs|
        ensures HasMember(bs[j], cover - {c})
      {
        assert bs[j] in cover - {c};
      }
      PigeonHole(bs, cover - {c});
    }
  }
}
