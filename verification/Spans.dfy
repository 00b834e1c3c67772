/** Range summarisation on plain integers: merging spans, then tiling each merged
    span greedily with the largest aligned block that fits. */
module Spans {
  import opened Bits
  import opened Dyadic
  import opened Sorting

  /** One `(network_int, prefixlen)` pair. */
  datatype Prefix = Prefix(network: nat, prefixlen: nat)

  /** An inclusive interval of addresses. */
  datatype Span = Span(lo: nat, hi: nat)

  ghost predicate PrefixesFit(bits: nat, ps: seq<Prefix>) {
    forall i :: 0 <= i < |ps| ==> ps[i].prefixlen <= bits
  }

  ghost function Blocks(bits: nat, ps: seq<Prefix>): (bs: seq<Block>)
    requires PrefixesFit(bits, ps)
  {
    seq(|ps|, i requires 0 <= i < |ps| => Block(ps[i].network, bits - ps[i].prefixlen))
  }

  // ----- one greedy step

  /** The host bits of the next block: limited by alignment and by what is left. */
  function GreedyOrder(lo: nat, hi: nat, bits: nat): nat
    requires lo <= hi
  {
    var align := if lo == 0 then bits else BitLength(LowBit(lo)) - 1;
    var span := BitLength(hi - lo + 1) - 1;
    if align <= span then align else span
  }

  /** `lo & -lo` */
  function LowBit(lo: nat): (r: nat)
    requires lo > 0
    ensures r > 0
  {
    LowBitPositive(lo);
    And(lo, Neg(lo))
  }

  lemma LowBitPositive(lo: nat)
    requires lo > 0
    ensures And(lo, Neg(lo)) > 0
  {
    var k := LowestBit(lo);
  }

  /** The greedy block is the largest aligned block that starts at lo and ends by hi. */
  lemma GreedyOrderIsLargest(lo: nat, hi: nat, bits: nat)
    requires lo <= hi < Pow2(bits)
    ensures Valid(Block(lo, GreedyOrder(lo, hi, bits)), bits)
    ensures lo + Pow2(GreedyOrder(lo, hi, bits)) <= hi + 1
    ensures forall j: nat :: lo % Pow2(j) == 0 && lo + Pow2(j) <= hi + 1 ==> j <= GreedyOrder(lo, hi, bits)
  {
    var n := hi - lo + 1;
    var span := BitLength(n) - 1;
    BitLengthBounds(n);
    var k := GreedyOrder(lo, hi, bits);
    Pow2Monotone(k, span);
    var align := bits;
    if lo > 0 {
      align := LowestBit(lo);
      BitLengthPow2(align);
      DividesDown(lo, k, align);
    } else {
      DivModUnique(0, Pow2(k), 0, 0);
    }
    forall j: nat | lo % Pow2(j) == 0 && lo + Pow2(j) <= hi + 1
      ensures j <= k
    {
      if j > span {
        Pow2Monotone(span + 1, j);
      }
      Pow2Order(j, bits);
      if lo > 0 && j > align {
        DividesDown(lo, align + 1, j);
      }
    }
  }

  // ----- greedy blocks are maximal

  /** No valid block inside lo .. hi has cur strictly inside it. */
  ghost predicate NoStraddle(bits: nat, lo: nat, hi: nat, cur: nat) {
    forall c :: Valid(c, bits) && Inside(c, Interval(lo, hi)) && c.base < cur ==> End(c) <= cur
  }

  lemma InsideInterval(c: Block, lo: int, hi: int)
    ensures Inside(c, Interval(lo, hi)) <==> lo <= c.base && End(c) <= hi + 1
  {
    if Inside(c, Interval(lo, hi)) {
      assert In(c.base, c) && In(End(c) - 1, c);
    }
  }

  lemma NoStraddleStart(bits: nat, lo: nat, hi: nat)
    ensures NoStraddle(bits, lo, hi, lo)
  {
    forall c | Inside(c, Interval(lo, hi))
      ensures lo <= c.base
    {
      InsideInterval(c, lo, hi);
    }
  }

  lemma GreedyStep(bits: nat, lo: nat, hi: nat, cur: nat)
    requires lo <= cur <= hi < Pow2(bits)
    requires NoStraddle(bits, lo, hi, cur)
    ensures var b := Block(cur, GreedyOrder(cur, hi, bits));
      Maximal(b, bits, Interval(lo, hi)) && NoStraddle(bits, lo, hi, End(b))
  {
    var b := Block(cur, GreedyOrder(cur, hi, bits));
    GreedyOrderIsLargest(cur, hi, bits);
    InsideInterval(b, lo, hi);
    forall c | Valid(c, bits) && Inside(c, Interval(lo, hi))
      ensures Within(b, c) ==> c == b
      ensures c.base < End(b) ==> End(c) <= End(b)
    {
      InsideInterval(c, lo, hi);
      if c.base == cur {
        assert c.order <= b.order;
        Pow2Monotone(c.order, b.order);
        if Within(b, c) {
          WithinEqual(b, c);
        }
      } else if cur < c.base < End(b) {
        LaminarEither(b, c);
      }
    }
  }

  /** `IpNetwork._summarize_ints` */
  method SummarizeInts(lo: nat, hi: nat, bits: nat) returns (out: seq<Prefix>)
    requires hi < Pow2(bits)
    ensures PrefixesFit(bits, out)
    ensures Ascending(Blocks(bits, out))
    ensures MaximalTiling(Blocks(bits, out), bits, Interval(lo, hi))
  {
    out := [];
    var cur := lo;
    ghost var bs: seq<Block> := [];
    NoStraddleStart(bits, lo, hi);
    while cur <= hi
      invariant lo <= cur && (lo <= hi ==> cur <= hi + 1) && (hi < lo ==> cur == lo)
      invariant PrefixesFit(bits, out) && bs == Blocks(bits, out)
      invariant PartialTiling(bs, bits, lo, hi, cur)
      invariant NoStraddle(bits, lo, hi, cur)
      decreases hi + 1 - cur
    {
      var step := GreedyOrder(cur, hi, bits);
      GreedyOrderIsLargest(cur, hi, bits);
      GreedyStep(bits, lo, hi, cur);
      Pow2Order(step, bits);
      PartialTilingExtend(bs, bits, lo, hi, cur, Block(cur, step));
      out := out + [Prefix(cur, bits - step)];
      bs := bs + [Block(cur, step)];
      cur := cur + Pow2(step);
    }
    PartialTilingComplete(bs, bits, lo, hi, cur);
  }

  /** bs tiles lo .. cur - 1, in order, with blocks maximal in lo .. hi. */
  ghost predicate PartialTiling(bs: seq<Block>, bits: nat, lo: nat, hi: nat, cur: nat) {
    && Ascending(bs)
    && (forall i :: 0 <= i < |bs| ==> Valid(bs[i], bits) && Maximal(bs[i], bits, Interval(lo, hi)))
    && (forall i :: 0 <= i < |bs| ==> lo <= bs[i].base && End(bs[i]) <= cur)
    && (forall a :: lo <= a < cur ==> Covers(Elements(bs), a))
  }

  lemma PartialTilingExtend(bs: seq<Block>, bits: nat, lo: nat, hi: nat, cur: nat, b: Block)
    requires lo <= cur && PartialTiling(bs, bits, lo, hi, cur)
    requires b.base == cur && Valid(b, bits) && Maximal(b, bits, Interval(lo, hi))
    ensures PartialTiling(bs + [b], bits, lo, hi, End(b))
  {
    var bs' := bs + [b];
    forall a | lo <= a < End(b)
      ensures Covers(Elements(bs'), a)
    {
      if a < cur {
        assert Covers(Elements(bs), a);
        var c :| c in Elements(bs) && In(a, c);
        assert c in Elements(bs');
      } else {
        assert b in Elements(bs') && In(a, b);
      }
    }
  }

  lemma PartialTilingComplete(bs: seq<Block>, bits: nat, lo: nat, hi: nat, cur: nat)
    requires PartialTiling(bs, bits, lo, hi, cur) && cur > hi
    requires lo <= hi ==> cur == hi + 1
    requires hi < lo ==> cur == lo
    ensures MaximalTiling(bs, bits, Interval(lo, hi))
  {
    forall a
      ensures a in Interval(lo, hi) <==> Covers(Elements(bs), a)
    {
      if Covers(Elements(bs), a) {
        var c :| c in Elements(bs) && In(a, c);
      }
    }
  }

  // ----- merging spans

  predicate SpanLe(s: Span, t: Span) {
    s.lo < t.lo || (s.lo == t.lo && s.hi <= t.hi)
  }

  ghost predicate InSpans(a: int, spans: seq<Span>) {
    exists i :: 0 <= i < |spans| && spans[i].lo <= a <= spans[i].hi
  }

  ghost function UnionOf(spans: seq<Span>): Region {
    iset a: int | InSpans(a, spans)
  }

  ghost predicate WellFormed(spans: seq<Span>) {
    forall i :: 0 <= i < |spans| ==> spans[i].lo <= spans[i].hi
  }

  /** In order, with at least one missing address between neighbours. */
  ghost predicate Separated(spans: seq<Span>) {
    forall i, j :: 0 <= i < j < |spans| ==> spans[i].hi + 1 < spans[j].lo
  }

  lemma SameMembersSameUnion(s: seq<Span>, t: seq<Span>)
    requires forall x :: x in s <==> x in t
    ensures UnionOf(s) == UnionOf(t)
  {
    forall a
      ensures InSpans(a, s) <==> InSpans(a, t)
    {
      InSpansByMember(a, s);
      InSpansByMember(a, t);
    }
  }

  lemma InSpansByMember(a: int, s: seq<Span>)
    ensures InSpans(a, s) <==> exists x :: x in s && x.lo <= a <= x.hi
  {
    if x :| x in s && x.lo <= a <= x.hi {
      var i :| 0 <= i < |s| && s[i] == x;
    }
  }

  /** merged is a separated form of the sorted spans read so far, the last of them starting at most at lo. */
  ghost predicate Merges(merged: seq<Span>, seen: seq<Span>) {
    && WellFormed(merged) && Separated(merged)
    && (forall a :: InSpans(a, merged) <==> InSpans(a, seen))
    && (merged == [] <==> seen == [])
    && (merged != [] ==> merged[|merged| - 1].lo <= seen[|seen| - 1].lo)
  }

  lemma MergeTouching(merged: seq<Span>, seen: seq<Span>, s: Span)
    requires Merges(merged, seen) && seen != [] && s.lo <= s.hi && seen[|seen| - 1].lo <= s.lo
    requires s.lo <= merged[|merged| - 1].hi + 1
    ensures Merges(merged[|merged| - 1 := Widened(merged[|merged| - 1], s)], seen + [s])
  {
    WidenLast(merged, s);
    AppendSpan(seen, s);
  }

  lemma MergeApart(merged: seq<Span>, seen: seq<Span>, s: Span)
    requires Merges(merged, seen) && s.lo <= s.hi
    requires merged != [] ==> merged[|merged| - 1].hi + 1 < s.lo
    ensures Merges(merged + [s], seen + [s])
  {
    var k := |merged| - 1;
    assert forall j :: 0 <= j < k ==> merged[j].hi + 1 < merged[k].lo <= merged[k].hi;
    AppendSpan(merged, s);
    AppendSpan(seen, s);
  }

  function Widened(last: Span, s: Span): Span {
    Span(last.lo, if last.hi >= s.hi then last.hi else s.hi)
  }

  lemma TakeNext<T>(s: seq<T>, i: nat)
    requires i < |s|
    ensures s[..i + 1] == s[..i] + [s[i]]
  {
  }

  lemma TakeAll<T>(s: seq<T>)
    ensures s[..|s|] == s
  {
  }

  lemma SameInSpans(s: seq<Span>, t: seq<Span>)
    requires forall a :: InSpans(a, s) <==> InSpans(a, t)
    ensures UnionOf(s) == UnionOf(t)
  {
  }

  lemma SortedSpans(spans: seq<Span>)
    requires WellFormed(spans)
    ensures var sorted := Sort(spans, SpanLe);
      && WellFormed(sorted) && UnionOf(sorted) == UnionOf(spans)
      && (forall i :: 0 < i < |sorted| ==> sorted[i - 1].lo <= sorted[i].lo)
  {
    var sorted := Sort(spans, SpanLe);
    SortSorted(spans, SpanLe);
    SortMembers(spans, SpanLe);
    forall i | 0 <= i < |sorted|
      ensures sorted[i].lo <= sorted[i].hi
    {
      assert sorted[i] in spans;
    }
    forall i | 0 < i < |sorted|
      ensures sorted[i - 1].lo <= sorted[i].lo
    {
      assert SpanLe(sorted[i - 1], sorted[i]);
    }
    SameMembersSameUnion(sorted, spans);
  }

  /** `IpNetwork._merge_spans` */
  method MergeSpans(spans: seq<Span>) returns (merged: seq<Span>)
    requires WellFormed(spans)
    ensures WellFormed(merged) && Separated(merged)
    ensures UnionOf(merged) == UnionOf(spans)
  {
    var sorted := Sort(spans, SpanLe);
    SortedSpans(spans);
    merged := [];
    ghost var seen: seq<Span> := [];
    for i := 0 to |sorted|
      invariant seen == sorted[..i]
      invariant Merges(merged, seen)
    {
      var s := sorted[i];
      var k := |merged| - 1;
      if merged != [] && s.lo <= merged[k].hi + 1 {
        MergeTouching(merged, seen, s);
        merged := merged[k := Widened(merged[k], s)];
      } else {
        MergeApart(merged, seen, s);
        merged := merged + [s];
      }
      TakeNext(sorted, i);
      seen := seen + [s];
    }
    TakeAll(sorted);
    SameInSpans(merged, sorted);
  }

  lemma AppendSpan(spans: seq<Span>, s: Span)
    ensures forall a :: InSpans(a, spans + [s]) <==> InSpans(a, spans) || s.lo <= a <= s.hi
  {
    forall a
      ensures InSpans(a, spans + [s]) <==> InSpans(a, spans) || s.lo <= a <= s.hi
    {
      var t := spans + [s];
      if InSpans(a, spans) {
        var i :| 0 <= i < |spans| && spans[i].lo <= a <= spans[i].hi;
        assert t[i] == spans[i];
      }
      if s.lo <= a <= s.hi {
        assert t[|spans|] == s;
      }
    }
  }

  /** Stretching the last span over s adds exactly the addresses of s when the two touch. */
  lemma WidenLast(spans: seq<Span>, s: Span)
    requires spans != []
    requires var l := spans[|spans| - 1]; l.lo <= s.lo <= l.hi + 1
    ensures var k := |spans| - 1;
      var w := Widened(spans[k], s);
      forall a :: InSpans(a, spans[k := w]) <==> InSpans(a, spans) || s.lo <= a <= s.hi
  {
    var k := |spans| - 1;
    var w := Widened(spans[k], s);
    assert spans == spans[..k] + [spans[k]] && spans[k := w] == spans[..k] + [w];
    AppendSpan(spans[..k], spans[k]);
    AppendSpan(spans[..k], w);
  }

  // ----- tiling every merged span

  /** A valid block inside a union of separated spans lies inside one of them. */
  lemma BlockInOneSpan(c: Block, spans: seq<Span>, i: nat)
    requires WellFormed(spans) && Separated(spans) && i < |spans|
    requires Inside(c, UnionOf(spans))
    requires exists a :: In(a, c) && spans[i].lo <= a <= spans[i].hi
    ensures Inside(c, Interval(spans[i].lo, spans[i].hi))
  {
    InsideInterval(c, spans[i].lo, spans[i].hi);
    if c.base < spans[i].lo {
      NotInGap(spans[i].lo - 1, spans, i);
      assert In(spans[i].lo - 1, c);
    }
    if End(c) > spans[i].hi + 1 {
      NotInGap(spans[i].hi + 1, spans, i);
      assert In(spans[i].hi + 1, c);
    }
  }

  lemma NotInGap(a: int, spans: seq<Span>, i: nat)
    requires WellFormed(spans) && Separated(spans) && i < |spans|
    requires a == spans[i].lo - 1 || a == spans[i].hi + 1
    ensures !InSpans(a, spans)
  {
    forall j | 0 <= j < |spans|
      ensures !(spans[j].lo <= a <= spans[j].hi)
    {
      if j < i {
        assert spans[j].hi + 1 < spans[i].lo;
      } else if i < j {
        assert spans[i].hi + 1 < spans[j].lo;
      }
    }
  }

  lemma MaximalLifts(b: Block, bits: nat, spans: seq<Span>, i: nat)
    requires WellFormed(spans) && Separated(spans) && i < |spans|
    requires Maximal(b, bits, Interval(spans[i].lo, spans[i].hi))
    ensures Maximal(b, bits, UnionOf(spans))
  {
    InsideInterval(b, spans[i].lo, spans[i].hi);
    forall c | Valid(c, bits) && Within(b, c) && Inside(c, UnionOf(spans))
      ensures c == b
    {
      assert In(b.base, c);
      BlockInOneSpan(c, spans, i);
    }
  }

  /** Merge, then tile each merged span: the body shared by both families of `summarize`. */
  method SummarizeSpans(spans: seq<Span>, bits: nat) returns (out: seq<Prefix>)
    requires WellFormed(spans)
    requires forall s :: s in spans ==> s.hi < Pow2(bits)
    ensures PrefixesFit(bits, out)
    ensures Ascending(Blocks(bits, out))
    ensures MaximalTiling(Blocks(bits, out), bits, UnionOf(spans))
  {
    var merged := MergeSpans(spans);
    UnionBound(merged, spans, Pow2(bits));
    out := [];
    for i := 0 to |merged|
      invariant PrefixesFit(bits, out)
      invariant TilesFirst(Blocks(bits, out), bits, merged, i)
    {
      var part := SummarizeInts(merged[i].lo, merged[i].hi, bits);
      TilesNext(Blocks(bits, out), Blocks(bits, part), bits, merged, i);
      assert Blocks(bits, out) + Blocks(bits, part) == Blocks(bits, out + part);
      out := out + part;
    }
    TilesAll(Blocks(bits, out), bits, merged);
  }

  /** bs tiles the first n spans, in order, with blocks maximal in the union of all of them. */
  ghost predicate TilesFirst(bs: seq<Block>, bits: nat, spans: seq<Span>, n: nat)
    requires n <= |spans|
  {
    && Ascending(bs)
    && (forall i :: 0 <= i < |bs| ==> Valid(bs[i], bits) && Maximal(bs[i], bits, UnionOf(spans)))
    && (forall i, k :: 0 <= i < |bs| && n <= k < |spans| ==> End(bs[i]) <= spans[k].lo)
    && (forall a :: Covers(Elements(bs), a) <==> InSpans(a, spans[..n]))
  }

  lemma UnionBound(merged: seq<Span>, spans: seq<Span>, limit: nat)
    requires WellFormed(merged) && UnionOf(merged) == UnionOf(spans)
    requires forall s :: s in spans ==> s.hi < limit
    ensures forall i :: 0 <= i < |merged| ==> merged[i].hi < limit
  {
    forall i | 0 <= i < |merged|
      ensures merged[i].hi < limit
    {
      assert InSpans(merged[i].hi, merged);
      assert merged[i].hi in UnionOf(spans);
    }
  }

  lemma TilesNext(bs: seq<Block>, part: seq<Block>, bits: nat, spans: seq<Span>, n: nat)
    requires WellFormed(spans) && Separated(spans) && n < |spans|
    requires TilesFirst(bs, bits, spans, n)
    requires Ascending(part) && MaximalTiling(part, bits, Interval(spans[n].lo, spans[n].hi))
    ensures TilesFirst(bs + part, bits, spans, n + 1)
  {
    forall i | 0 <= i < |part|
      ensures Maximal(part[i], bits, UnionOf(spans))
      ensures spans[n].lo <= part[i].base && End(part[i]) <= spans[n].hi + 1
    {
      MaximalLifts(part[i], bits, spans, n);
      InsideInterval(part[i], spans[n].lo, spans[n].hi);
    }
    var s := spans[n];
    assert spans[..n + 1] == spans[..n] + [s];
    AppendSpan(spans[..n], s);
    forall a
      ensures Covers(Elements(bs + part), a) <==> InSpans(a, spans[..n + 1])
    {
      CoversAppend(bs, part, a);
      assert Covers(Elements(part), a) <==> a in Interval(s.lo, s.hi);
    }
  }

  lemma CoversAppend(bs: seq<Block>, cs: seq<Block>, a: int)
    ensures Covers(Elements(bs + cs), a) <==> Covers(Elements(bs), a) || Covers(Elements(cs), a)
  {
    assert Elements(bs + cs) == Elements(bs) + Elements(cs);
  }

  lemma TilesAll(bs: seq<Block>, bits: nat, spans: seq<Span>)
    requires TilesFirst(bs, bits, spans, |spans|)
    ensures MaximalTiling(bs, bits, UnionOf(spans))
  {
    assert spans[..|spans|] == spans;
  }
}
