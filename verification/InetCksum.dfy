/** The Internet checksum: a 64-bit accumulation with four folds, against the 16-bit
    one's-complement sum that RFC 1071 defines. */
module InetCksum {
  import opened Bits
  import opened Octets

  type Buffer = Bytes

  /** The 16-bit number with the given high and low bytes. */
  function Word(hi: Byte, lo: Byte): nat {
    var h: int, l: int := hi, lo;
    256 * h + l
  }

  // ----- what RFC 1071 defines

  /** The sum of the big-endian 16-bit words, an odd last byte padded with zero. */
  function WordSum(b: Buffer): nat {
    if |b| == 0 then 0
    else if |b| == 1 then Word(b[0], 0)
    else Word(b[0], b[1]) + WordSum(b[2..])
  }

  /** One's-complement addition of two 16-bit numbers: the carry comes back in at the bottom. */
  function EndAroundAdd(x: nat, y: nat): nat {
    if x + y > 0xFFFF then x + y - 0xFFFF else x + y
  }

  /** The one's-complement sum of the words, one addition at a time. */
  function OnesSum(b: Buffer): nat {
    if |b| == 0 then 0
    else if |b| == 1 then Word(b[0], 0)
    else EndAroundAdd(Word(b[0], b[1]), OnesSum(b[2..]))
  }

  /** The 16-bit one's-complement value of a plain sum. */
  function Residue(s: nat): nat {
    if s == 0 then 0 else (s - 1) % 0xFFFF + 1
  }

  function Rfc1071(s: nat): nat {
    0xFFFF - Residue(s)
  }

  lemma ResidueAdd(x: nat, s: nat)
    requires x <= 0xFFFF
    ensures EndAroundAdd(x, Residue(s)) == Residue(x + s)
  {
    if s == 0 {
      if x > 0 {
        DivModUnique(x - 1, 0xFFFF, 0, x - 1);
      }
    } else {
      var q, r := (s - 1) / 0xFFFF, (s - 1) % 0xFFFF;
      if x + r < 0xFFFF {
        DivModUnique(x + s - 1, 0xFFFF, q, x + r);
      } else {
        DivModUnique(x + s - 1, 0xFFFF, q + 1, x + r - 0xFFFF);
      }
    }
  }

  /** Folding the plain sum once at the end equals adding with end-around carry all along. */
  lemma {:induction false} ResidueIsOnesSum(b: Buffer)
    ensures OnesSum(b) == Residue(WordSum(b))
  {
    if |b| == 1 {
      ResidueAdd(Word(b[0], 0), 0);
    } else if |b| >= 2 {
      ResidueIsOnesSum(b[2..]);
      ResidueAdd(Word(b[0], b[1]), WordSum(b[2..]));
    }
  }

  // ----- what the code accumulates

  function WordAt(b: Buffer, i: nat): nat
    requires i + 2 <= |b|
  {
    Word(b[i], b[i + 1])
  }

  function QuadAt(b: Buffer, i: nat): nat
    requires i + 8 <= |b|
  {
    0x1_0000_0000_0000 * WordAt(b, i) + 0x1_0000_0000 * WordAt(b, i + 2)
    + 0x1_0000 * WordAt(b, i + 4) + WordAt(b, i + 6)
  }

  /** `sum(struct.unpack_from(f"!{count}Q", b, offset))` */
  function SumQuads(b: Buffer, offset: nat, count: nat): nat
    requires offset + 8 * count <= |b|
  {
    if count == 0 then 0 else SumQuads(b, offset, count - 1) + QuadAt(b, offset + 8 * (count - 1))
  }

  /** `sum(struct.unpack_from(f"!{count}H", b, offset))` */
  function SumWords(b: Buffer, offset: nat, count: nat): nat
    requires offset + 2 * count <= |b|
  {
    if count == 0 then 0 else SumWords(b, offset, count - 1) + WordAt(b, offset + 2 * (count - 1))
  }

  /** What one buffer adds from the given offset: whole 64-bit words, then whole 16-bit words. */
  function TailSum(b: Buffer, offset: nat): nat
    requires offset <= |b|
  {
    var quads := (|b| - offset) / 8;
    var rest := offset + 8 * quads;
    SumQuads(b, offset, quads) + SumWords(b, rest, (|b| - rest) / 2)
  }

  /** Where those words end: at the end of the buffer, or one byte before it. */
  function TailEnd(b: Buffer, offset: nat): nat
    requires offset <= |b|
  {
    |b| - (|b| - offset) % 2
  }

  /** The running sum and the odd byte waiting for a partner; zero stands for no byte. */
  datatype Acc = Acc(sum: nat, carry: Byte)

  /** What reading one more buffer makes of the accumulator. */
  function Absorb(acc: Acc, b: Buffer): Acc {
    if acc.carry != 0 && |b| == 0 then acc else
      var offset := if acc.carry != 0 then 1 else 0;
      var head := if acc.carry != 0 then Word(acc.carry, b[0]) else 0;
      Acc(acc.sum + head + TailSum(b, offset), if TailEnd(b, offset) < |b| then b[|b| - 1] else 0)
  }

  function Accumulate(buffers: seq<Buffer>, init: nat): Acc {
    if buffers == [] then Acc(init, 0)
    else Absorb(Accumulate(buffers[..|buffers| - 1], init), buffers[|buffers| - 1])
  }

  function Total(buffers: seq<Buffer>, init: nat): nat {
    var acc := Accumulate(buffers, init);
    acc.sum + Word(acc.carry, 0)
  }

  // ----- the folds

  function Fold64(x: nat): nat {
    x % 0x1_0000_0000_0000_0000 + x / 0x1_0000_0000_0000_0000
  }

  function Fold32(x: nat): nat {
    x % 0x1_0000_0000 + x / 0x1_0000_0000
  }

  function Fold16(x: nat): nat {
    x % 0x1_0000 + x / 0x1_0000
  }

  /** The first three folds. */
  function FoldedThrice(total: nat): nat {
    Fold16(Fold32(Fold64(total)))
  }

  /** All four folds: the value that is complemented. */
  function Folded(total: nat): nat {
    Fold16(FoldedThrice(total))
  }

  /** `~x & 0xFFFF` */
  function Complement(x: nat): nat {
    0xFFFF - x % 0x1_0000
  }

  function Checksum(buffers: seq<Buffer>, init: nat): nat {
    Complement(Folded(Total(buffers, init)))
  }

  function Nines(k: nat): nat {
    0xFFFF * k
  }

  /** total stands for the plain sum s: the same residue, and zero together. */
  ghost predicate Represents(total: nat, s: nat) {
    (exists k: nat :: total == s + Nines(k)) && (s == 0 ==> total == 0)
  }

  const LIMIT: nat := 0x1_0000_0000_0000_0000_0000_0000

  /** Taking away a multiple of 65535 keeps the residue. */
  lemma SameResidue(x: nat, y: nat, t: nat, s: nat)
    requires x - y == 0xFFFF * t && (x - s) % 0xFFFF == 0
    ensures (y - s) % 0xFFFF == 0
  {
    var j := (x - s) / 0xFFFF;
    assert y - s == (j - t) * 0xFFFF + 0;
    DivModUnique(y - s, 0xFFFF, j - t, 0);
  }

  lemma Fold64Residue(x: nat, s: nat)
    requires (x == 0 <==> s == 0) && (x - s) % 0xFFFF == 0
    ensures (Fold64(x) == 0 <==> s == 0) && (Fold64(x) - s) % 0xFFFF == 0
  {
    SameResidue(x, Fold64(x), 0x1_0001_0001_0001 * (x / 0x1_0000_0000_0000_0000), s);
  }

  lemma Fold32Residue(x: nat, s: nat)
    requires (x == 0 <==> s == 0) && (x - s) % 0xFFFF == 0
    ensures (Fold32(x) == 0 <==> s == 0) && (Fold32(x) - s) % 0xFFFF == 0
  {
    SameResidue(x, Fold32(x), 0x1_0001 * (x / 0x1_0000_0000), s);
  }

  lemma Fold16Residue(x: nat, s: nat)
    requires (x == 0 <==> s == 0) && (x - s) % 0xFFFF == 0
    ensures (Fold16(x) == 0 <==> s == 0) && (Fold16(x) - s) % 0xFFFF == 0
  {
    SameResidue(x, Fold16(x), x / 0x1_0000, s);
  }

  /** How far four folds bring down a total below 2^96. */
  lemma FoldBounds(x: nat, y: nat, z: nat, w: nat, f: nat)
    requires x < LIMIT
    requires y == x % 0x1_0000_0000_0000_0000 + x / 0x1_0000_0000_0000_0000
    requires z == y % 0x1_0000_0000 + y / 0x1_0000_0000
    requires w == z % 0x1_0000 + z / 0x1_0000
    requires f == w % 0x1_0000 + w / 0x1_0000
    ensures f <= 0x1_0000
    ensures f == 0x1_0000 <==> w == 0x1_FFFF
  {
    assert y <= 0x1_0000_0000_FFFF_FFFE;
    assert z <= 0x1_FFFF_FFFE;
    assert w <= 0x2_FFFD;
  }

  lemma RepresentsResidue(total: nat, s: nat)
    requires Represents(total, s)
    ensures (total == 0 <==> s == 0) && (total - s) % 0xFFFF == 0
  {
    var k: nat :| total == s + Nines(k);
    DivModUnique(total - s, 0xFFFF, k, 0);
  }

  lemma FourFolds(x: nat, y: nat, z: nat, w: nat, f: nat, s: nat)
    requires y == Fold64(x) && z == Fold32(y) && w == Fold16(z) && f == Fold16(w)
    requires (x == 0 <==> s == 0) && (x - s) % 0xFFFF == 0
    ensures (f == 0 <==> s == 0) && (f - s) % 0xFFFF == 0
  {
    Fold64Residue(x, s);
    Fold32Residue(y, s);
    Fold16Residue(z, s);
    Fold16Residue(w, s);
  }

  /** Below 2^96, four folds give a value of at most 0x10000 with the residue of the total;
      0x10000 comes out exactly when the third fold was 0x1FFFF. */
  lemma FoldedFacts(total: nat, s: nat)
    requires total < LIMIT && Represents(total, s)
    ensures Folded(total) <= 0x1_0000
    ensures Folded(total) == 0x1_0000 <==> FoldedThrice(total) == 0x1_FFFF
    ensures Folded(total) == 0 <==> s == 0
    ensures (Folded(total) - s) % 0xFFFF == 0
  {
    FoldBounds(total, Fold64(total), Fold32(Fold64(total)), FoldedThrice(total), Folded(total));
    RepresentsResidue(total, s);
    FourFolds(total, Fold64(total), Fold32(Fold64(total)), FoldedThrice(total), Folded(total), s);
  }

  lemma ComplementValue(x: nat)
    requires x <= 0x1_0000
    ensures Complement(x) == if x == 0x1_0000 then 0xFFFF else 0xFFFF - x
  {
  }

  /** The only values up to 0x10000 with the residue of s, zero together with it. */
  lemma ResidueOf(f: nat, s: nat)
    requires f <= 0x1_0000 && (f - s) % 0xFFFF == 0 && (f == 0 <==> s == 0)
    ensures Residue(s) == if f == 0x1_0000 then 1 else f
    ensures f == 0xFFFF <==> s > 0 && s % 0xFFFF == 0
  {
    if s > 0 {
      var k := (s - f) / 0xFFFF;
      assert s == f + k * 0xFFFF;
      if f == 0x1_0000 {
        DivModUnique(s - 1, 0xFFFF, k + 1, 0);
        DivModUnique(s, 0xFFFF, k + 1, 1);
      } else {
        DivModUnique(s - 1, 0xFFFF, k, f - 1);
      }
    }
  }

  lemma FifthFold(f: nat)
    requires f <= 0x1_0000
    ensures Fold16(f) == if f == 0x1_0000 then 1 else f
  {
  }

  lemma ComplementIsExact(f: nat, s: nat)
    requires f <= 0x1_0000 && (f - s) % 0xFFFF == 0 && (f == 0 <==> s == 0)
    ensures Complement(f) == Rfc1071(s) <==> f != 0x1_0000
    ensures f == 0x1_0000 ==> Complement(f) == 0xFFFF && Rfc1071(s) == 0xFFFE
    ensures Complement(Fold16(f)) == Rfc1071(s)
    ensures Complement(f) == 0 <==> s > 0 && s % 0xFFFF == 0
  {
    ComplementValue(f);
    ResidueOf(f, s);
    FifthFold(f);
    ComplementValue(Fold16(f));
  }

  /** The result is the RFC 1071 checksum of s unless the third fold is 0x1FFFF, a fifth fold would
      make it exact always, and it is zero exactly for the positive multiples of 65535. */
  lemma FoldedIsExact(total: nat, s: nat)
    requires total < LIMIT && Represents(total, s)
    ensures Complement(Folded(total)) == Rfc1071(s) <==> FoldedThrice(total) != 0x1_FFFF
    ensures FoldedThrice(total) == 0x1_FFFF ==> Complement(Folded(total)) == 0xFFFF && Rfc1071(s) == 0xFFFE
    ensures Complement(Fold16(Folded(total))) == Rfc1071(s)
    ensures Complement(Folded(total)) == 0 <==> s > 0 && s % 0xFFFF == 0
  {
    FoldedFacts(total, s);
    ComplementIsExact(Folded(total), s);
  }

  // ----- the accumulation stands for the word sum

  lemma {:induction false} WordSumAppend(x: Buffer, y: Buffer)
    requires |x| % 2 == 0
    ensures WordSum(x + y) == WordSum(x) + WordSum(y)
  {
    if x == [] {
      assert x + y == y;
    } else {
      WordSumAppend(x[2..], y);
      assert (x + y)[2..] == x[2..] + y;
    }
  }

  lemma RepresentsAdd(t: nat, s: nat, t': nat, s': nat)
    requires Represents(t, s) && Represents(t', s')
    ensures Represents(t + t', s + s')
  {
    var k: nat :| t == s + Nines(k);
    var k': nat :| t' == s' + Nines(k');
    assert t + t' == s + s' + Nines(k + k');
  }

  /** The word sum of eight bytes, word by word. */
  lemma EightBytes(c: Buffer)
    requires |c| == 8
    ensures WordSum(c) == Word(c[0], c[1]) + Word(c[2], c[3]) + Word(c[4], c[5]) + Word(c[6], c[7])
  {
    assert WordSum(c[6..]) == Word(c[6], c[7]) by { assert c[6..][2..] == []; }
    assert WordSum(c[4..]) == Word(c[4], c[5]) + WordSum(c[6..]) by { assert c[4..][2..] == c[6..]; }
    assert WordSum(c[2..]) == Word(c[2], c[3]) + WordSum(c[4..]) by { assert c[2..][2..] == c[4..]; }
  }

  /** A 64-bit word has the residue of its four 16-bit words, since 2^16 is 1 modulo 65535. */
  lemma QuadRepresents(b: Buffer, i: nat)
    requires i + 8 <= |b|
    ensures Represents(QuadAt(b, i), WordSum(b[i..i + 8]))
  {
    EightBytes(b[i..i + 8]);
    FourWords(WordAt(b, i), WordAt(b, i + 2), WordAt(b, i + 4), WordAt(b, i + 6));
  }

  lemma FourWords(w0: nat, w1: nat, w2: nat, w3: nat)
    ensures Represents(0x1_0000_0000_0000 * w0 + 0x1_0000_0000 * w1 + 0x1_0000 * w2 + w3, w0 + w1 + w2 + w3)
  {
    var k := 0x1_0001_0001 * w0 + 0x1_0001 * w1 + w2;
    assert 0x1_0000_0000_0000 * w0 + 0x1_0000_0000 * w1 + 0x1_0000 * w2 + w3 == w0 + w1 + w2 + w3 + Nines(k);
  }

  lemma {:induction false} QuadsRepresent(b: Buffer, offset: nat, count: nat, end: nat)
    requires end == offset + 8 * count && end <= |b|
    ensures Represents(SumQuads(b, offset, count), WordSum(b[offset..end]))
  {
    if count == 0 {
      RepresentsSelf(0);
    } else {
      QuadsRepresent(b, offset, count - 1, end - 8);
      NextQuad(b, offset, count, end - 8, end, SumQuads(b, offset, count - 1));
    }
  }

  lemma NextQuad(b: Buffer, offset: nat, count: nat, i: nat, end: nat, t: nat)
    requires 0 < count && i == offset + 8 * (count - 1) && end == i + 8 <= |b|
    requires t == SumQuads(b, offset, count - 1) && Represents(t, WordSum(b[offset..i]))
    ensures Represents(SumQuads(b, offset, count), WordSum(b[offset..end]))
  {
    QuadRepresents(b, i);
    RepresentsJoined(b, offset, i, end, t, QuadAt(b, i));
  }

  lemma RepresentsJoined(b: Buffer, i: nat, j: nat, k: nat, t: nat, t': nat)
    requires i <= j <= k <= |b| && (j - i) % 2 == 0
    requires Represents(t, WordSum(b[i..j])) && Represents(t', WordSum(b[j..k]))
    ensures Represents(t + t', WordSum(b[i..k]))
  {
    SplitSum(b, i, j, k);
    RepresentsAdd(t, WordSum(b[i..j]), t', WordSum(b[j..k]));
  }

  lemma {:induction false} WordsExact(b: Buffer, offset: nat, count: nat)
    requires offset + 2 * count <= |b|
    ensures SumWords(b, offset, count) == WordSum(b[offset..offset + 2 * count])
  {
    if count == 0 {
    } else {
      WordsExact(b, offset, count - 1);
      var i := offset + 2 * (count - 1);
      assert b[offset..i + 2] == b[offset..i] + b[i..i + 2];
      WordSumAppend(b[offset..i], b[i..i + 2]);
      assert b[i..i + 2][2..] == [];
    }
  }

  /** The bytes whose word sum the code computes. A zero byte left over at an odd position is not
      carried, which reads the next buffer as if one more zero byte stood before it. */
  function Effective(buffers: seq<Buffer>): Buffer {
    if buffers == [] then [] else
      var acc := Effective(buffers[..|buffers| - 1]);
      Joined(acc, buffers[|buffers| - 1])
  }

  function Joined(acc: Buffer, b: Buffer): Buffer {
    if DanglingZero(acc) && b != [] then acc + [0] + b else acc + b
  }

  predicate DanglingZero(acc: Buffer) {
    |acc| % 2 == 1 && acc[|acc| - 1] == 0
  }

  /** The carry is the odd last byte, and the sum stands for everything before it. */
  ghost predicate Stands(acc: Acc, init: nat, bytes: Buffer) {
    var even := |bytes| - |bytes| % 2;
    && acc.carry == (if |bytes| % 2 == 1 then bytes[|bytes| - 1] else 0)
    && Represents(acc.sum, init + WordSum(bytes[..even]))
  }

  lemma StandsAt(acc: Acc, init: nat, bytes: Buffer, even: nat)
    requires even == |bytes| - |bytes| % 2
    requires acc.carry == if even < |bytes| then bytes[|bytes| - 1] else 0
    requires Represents(acc.sum, init + WordSum(bytes[..even]))
    ensures Stands(acc, init, bytes)
  {
  }

  lemma QuadsThenWords(b: Buffer, offset: nat, quads: nat, rest: nat, words: nat, end: nat)
    requires rest == offset + 8 * quads && end == rest + 2 * words <= |b|
    ensures Represents(SumQuads(b, offset, quads) + SumWords(b, rest, words), WordSum(b[offset..end]))
  {
    QuadsRepresent(b, offset, quads, rest);
    WordsExact(b, rest, words);
    RepresentsSelf(WordSum(b[rest..end]));
    RepresentsJoined(b, offset, rest, end, SumQuads(b, offset, quads), SumWords(b, rest, words));
  }

  /** The aligned part of one buffer, read as quads and then words. */
  lemma TailRepresents(b: Buffer, offset: nat)
    requires offset <= |b|
    ensures offset <= TailEnd(b, offset) && Represents(TailSum(b, offset), WordSum(b[offset..TailEnd(b, offset)]))
  {
    TailLayout(|b|, offset);
    var quads := (|b| - offset) / 8;
    var rest := offset + 8 * quads;
    QuadsThenWords(b, offset, quads, rest, (|b| - rest) / 2, TailEnd(b, offset));
  }

  lemma TailLayout(n: nat, offset: nat)
    requires offset <= n
    ensures var rest := offset + 8 * ((n - offset) / 8);
      rest <= n && rest + 2 * ((n - rest) / 2) == n - (n - offset) % 2
  {
    var m := n - offset;
    var q, r := m / 8, m % 8;
    DivModUnique(m, 2, 4 * q + r / 2, r % 2);
  }

  lemma RepresentsSelf(s: nat)
    ensures Represents(s, s)
  {
    assert s == s + Nines(0);
  }

  lemma SplitSum(b: Buffer, i: nat, j: nat, k: nat)
    requires i <= j <= k <= |b| && (j - i) % 2 == 0
    ensures WordSum(b[i..k]) == WordSum(b[i..j]) + WordSum(b[j..k])
  {
    assert b[i..k] == b[i..j] + b[j..k];
    WordSumAppend(b[i..j], b[j..k]);
  }

  lemma EvenPlus(m: nat, n: nat)
    requires m % 2 == 0
    ensures (m + n) % 2 == n % 2
  {
  }

  lemma TakeBoth(x: Buffer, y: Buffer, n: nat)
    requires n <= |y|
    ensures (x + y)[..|x| + n] == x + y[0..n]
  {
  }

  lemma AlignedStands(sum: nat, init: nat, bytes: Buffer, b: Buffer, add: nat, even: nat, carry: Byte)
    requires |bytes| % 2 == 0 && Represents(sum, init + WordSum(bytes))
    requires even == |b| - |b| % 2 && Represents(add, WordSum(b[0..even]))
    requires carry == if even < |b| then b[|b| - 1] else 0
    ensures Stands(Acc(sum + add, carry), init, bytes + b)
  {
    EvenPlus(|bytes|, |b|);
    AlignedSum(sum, init, bytes, b, add, even);
    StandsAt(Acc(sum + add, carry), init, bytes + b, |bytes| + even);
  }

  lemma AlignedSum(sum: nat, init: nat, bytes: Buffer, b: Buffer, add: nat, even: nat)
    requires |bytes| % 2 == 0 && Represents(sum, init + WordSum(bytes))
    requires even <= |b| && Represents(add, WordSum(b[0..even]))
    ensures Represents(sum + add, init + WordSum((bytes + b)[..|bytes| + even]))
  {
    TakeBoth(bytes, b, even);
    WordSumAppend(bytes, b[0..even]);
    RepresentsAdd(sum, init + WordSum(bytes), add, WordSum(b[0..even]));
  }

  /** Appending to an even number of bytes. */
  lemma AbsorbAligned(acc: Acc, init: nat, bytes: Buffer, b: Buffer)
    requires |bytes| % 2 == 0 && acc.carry == 0 && Represents(acc.sum, init + WordSum(bytes))
    ensures Stands(Absorb(acc, b), init, bytes + b)
  {
    TailRepresents(b, 0);
    AlignedStands(acc.sum, init, bytes, b, TailSum(b, 0), TailEnd(b, 0), Absorb(acc, b).carry);
  }

  lemma PairThenRest(bytes: Buffer, b: Buffer, end: nat)
    requires |bytes| % 2 == 1 && 1 <= end <= |b|
    ensures var n := |bytes| - 1;
      WordSum((bytes + b)[..|bytes| + end]) == WordSum(bytes[..n]) + Word(bytes[n], b[0]) + WordSum(b[1..end])
  {
    var n := |bytes| - 1;
    var pair: Buffer := [bytes[n], b[0]];
    assert (bytes + b)[..|bytes| + end] == bytes[..n] + (pair + b[1..end]);
    WordSumAppend(bytes[..n], pair + b[1..end]);
    WordSumAppend(pair, b[1..end]);
    assert pair[2..] == [];
  }

  lemma CarriedStands(sum: nat, init: nat, bytes: Buffer, b: Buffer, add: nat, end: nat, carry: Byte)
    requires |bytes| % 2 == 1 && b != [] && Represents(sum, init + WordSum(bytes[..|bytes| - 1]))
    requires end == |b| - (|b| - 1) % 2 && Represents(add, WordSum(b[1..end]))
    requires carry == if end < |b| then b[|b| - 1] else 0
    ensures Stands(Acc(sum + Word(bytes[|bytes| - 1], b[0]) + add, carry), init, bytes + b)
  {
    EvenPlus(|bytes| + 1, |b| - 1);
    CarriedSum(sum, init, bytes, b, add, end);
    var head := Word(bytes[|bytes| - 1], b[0]);
    StandsAt(Acc(sum + head + add, carry), init, bytes + b, |bytes| + end);
  }

  lemma CarriedSum(sum: nat, init: nat, bytes: Buffer, b: Buffer, add: nat, end: nat)
    requires |bytes| % 2 == 1 && 1 <= end <= |b| && Represents(sum, init + WordSum(bytes[..|bytes| - 1]))
    requires Represents(add, WordSum(b[1..end]))
    ensures Represents(sum + Word(bytes[|bytes| - 1], b[0]) + add, init + WordSum((bytes + b)[..|bytes| + end]))
  {
    PairThenRest(bytes, b, end);
    var s := init + WordSum(bytes[..|bytes| - 1]);
    var head := Word(bytes[|bytes| - 1], b[0]);
    RepresentsSelf(head);
    RepresentsAdd(sum, s, head, head);
    RepresentsAdd(sum + head, s + head, add, WordSum(b[1..end]));
  }

  /** Completing the word whose high byte is carried. */
  lemma AbsorbCarried(acc: Acc, init: nat, bytes: Buffer, b: Buffer)
    requires |bytes| % 2 == 1 && acc.carry == bytes[|bytes| - 1] != 0 && b != []
    requires Represents(acc.sum, init + WordSum(bytes[..|bytes| - 1]))
    ensures Stands(Absorb(acc, b), init, bytes + b)
  {
    TailRepresents(b, 1);
    CarriedStands(acc.sum, init, bytes, b, TailSum(b, 1), TailEnd(b, 1), Absorb(acc, b).carry);
  }

  /** A zero byte at an odd position adds nothing, nor does a second one after it. */
  lemma PadDanglingZero(bytes: Buffer)
    requires DanglingZero(bytes)
    ensures WordSum(bytes + [0]) == WordSum(bytes[..|bytes| - 1]) == WordSum(bytes)
  {
    var n := |bytes| - 1;
    var zeros: Buffer := [0, 0];
    assert bytes + [0] == bytes[..n] + zeros && bytes == bytes[..n] + zeros[..1];
    WordSumAppend(bytes[..n], zeros);
    WordSumAppend(bytes[..n], zeros[..1]);
    assert zeros[2..] == [];
  }

  lemma {:induction false} AccumulateStands(buffers: seq<Buffer>, init: nat)
    ensures Stands(Accumulate(buffers, init), init, Effective(buffers))
  {
    if buffers == [] {
      RepresentsSelf(init);
    } else {
      var front, b := buffers[..|buffers| - 1], buffers[|buffers| - 1];
      AccumulateStands(front, init);
      AbsorbStands(Accumulate(front, init), init, Effective(front), b);
    }
  }

  lemma AbsorbStands(acc: Acc, init: nat, bytes: Buffer, b: Buffer)
    requires Stands(acc, init, bytes)
    ensures Stands(Absorb(acc, b), init, Joined(bytes, b))
  {
    if |bytes| % 2 == 0 {
      assert bytes[..|bytes|] == bytes;
      AbsorbAligned(acc, init, bytes, b);
    } else if b == [] {
      assert bytes + b == bytes;
    } else if acc.carry != 0 {
      AbsorbCarried(acc, init, bytes, b);
    } else {
      PadDanglingZero(bytes);
      AbsorbAligned(acc, init, bytes + [0], b);
    }
  }

  /** On every list of buffers the total stands for the word sum of the effective bytes. */
  lemma TotalRepresents(buffers: seq<Buffer>, init: nat)
    ensures Represents(Total(buffers, init), init + WordSum(Effective(buffers)))
  {
    AccumulateStands(buffers, init);
    FlushCarry(Accumulate(buffers, init), init, Effective(buffers));
  }

  lemma FlushCarry(acc: Acc, init: nat, bytes: Buffer)
    requires Stands(acc, init, bytes)
    ensures Represents(acc.sum + Word(acc.carry, 0), init + WordSum(bytes))
  {
    if |bytes| % 2 == 1 {
      var n := |bytes| - 1;
      assert bytes == bytes[..n] + [bytes[n]];
      WordSumAppend(bytes[..n], [bytes[n]]);
      RepresentsSelf(Word(acc.carry, 0));
      RepresentsAdd(acc.sum, init + WordSum(bytes[..n]), Word(acc.carry, 0), Word(acc.carry, 0));
    } else {
      assert bytes[..|bytes|] == bytes;
    }
  }

  // ----- the function itself

  method InetCksum(buffers: seq<Buffer>, init: nat) returns (r: int)
    ensures r == Checksum(buffers, init)
  {
    var cksum: nat, carry: Byte := init, 0;
    for i := 0 to |buffers|
      invariant Acc(cksum, carry) == Accumulate(buffers[..i], init)
    {
      assert buffers[..i + 1][..i] == buffers[..i];
      cksum, carry := ReadBuffer(buffers[i], cksum, carry);
    }
    assert buffers[..|buffers|] == buffers;
    JoinBytes(carry, 0);
    cksum := cksum + ShiftLeft(carry, 8);
    r := FoldAndComplement(cksum);
  }

  /** The loop body, `continue` included. */
  method ReadBuffer(buffer: Buffer, cksum0: nat, carry0: Byte) returns (cksum: nat, carry: Byte)
    ensures Acc(cksum, carry) == Absorb(Acc(cksum0, carry0), buffer)
  {
    cksum, carry := cksum0, carry0;
    var offset := 0;
    if carry != 0 {
      if |buffer| != 0 {
        JoinBytes(carry, buffer[0]);
        cksum := cksum + Or(ShiftLeft(carry, 8), buffer[0]);
        offset := 1;
        carry := 0;
      } else {
        return;
      }
    }
    var added;
    added, offset := ReadAligned(buffer, offset);
    cksum := cksum + added;
    if |buffer| - offset == 1 {
      carry := buffer[offset];
    }
  }

  /** The 64-bit words of the buffer and then its 16-bit words, from the given offset on. */
  method ReadAligned(buffer: Buffer, start: nat) returns (added: nat, offset: nat)
    requires start <= |buffer|
    ensures added == TailSum(buffer, start) && offset == TailEnd(buffer, start)
  {
    TailLayout(|buffer|, start);
    var quads, rest := ReadQuads(buffer, start);
    var words;
    words, offset := ReadWords(buffer, rest);
    added := quads + words;
  }

  method ReadQuads(buffer: Buffer, start: nat) returns (added: nat, offset: nat)
    requires start <= |buffer|
    ensures added == SumQuads(buffer, start, (|buffer| - start) / 8)
    ensures offset == start + 8 * ((|buffer| - start) / 8)
  {
    added, offset := 0, start;
    var remainder := |buffer| - start;
    if remainder >= 8 {
      var qCount := remainder / 8;
      added := SumQuads(buffer, offset, qCount);
      offset := offset + 8 * qCount;
    }
  }

  method ReadWords(buffer: Buffer, start: nat) returns (added: nat, offset: nat)
    requires start <= |buffer|
    ensures added == SumWords(buffer, start, (|buffer| - start) / 2)
    ensures offset == start + 2 * ((|buffer| - start) / 2)
  {
    added, offset := 0, start;
    EvenPart(|buffer| - start);
    var even := And(|buffer| - start, Not(1));
    if even != 0 {
      added := SumWords(buffer, offset, even / 2);
      offset := offset + even;
    }
  }

  method FoldAndComplement(total: nat) returns (r: int)
    ensures r == Complement(Folded(total))
  {
    var cksum := FoldWide(total);
    cksum := FoldNarrow(cksum);
    cksum := FoldNarrow(cksum);
    LowMask16(Not(cksum));
    NegatedLow(cksum);
    r := And(Not(cksum), 0xFFFF);
  }

  method FoldWide(total: nat) returns (cksum: nat)
    ensures cksum == Fold32(Fold64(total))
  {
    LowMask64(total);
    cksum := And(total, 0xFFFF_FFFF_FFFF_FFFF) + total / 0x1_0000_0000_0000_0000;
    LowMask32(cksum);
    cksum := And(cksum, 0xFFFF_FFFF) + cksum / 0x1_0000_0000;
  }

  method FoldNarrow(x: nat) returns (cksum: nat)
    ensures cksum == Fold16(x)
  {
    LowMask16(x);
    cksum := And(x, 0xFFFF) + x / 0x1_0000;
  }

  lemma LowMask64(x: nat)
    ensures And(x, 0xFFFF_FFFF_FFFF_FFFF) + x / 0x1_0000_0000_0000_0000 == Fold64(x)
  {
    Pow2_64();
    AndLowMask(x, 64);
  }

  lemma LowMask32(x: nat)
    ensures And(x, 0xFFFF_FFFF) + x / 0x1_0000_0000 == Fold32(x)
  {
    Pow2_32();
    AndLowMask(x, 32);
  }

  lemma LowMask16(x: int)
    ensures And(x, 0xFFFF) == x % 0x1_0000
  {
    Pow2_16();
    AndLowMask(x, 16);
  }

  lemma NegatedLow(x: nat)
    ensures Not(x) % 0x1_0000 == Complement(x)
  {
    DivModUnique(Not(x), 0x1_0000, -1 - x / 0x1_0000, 0xFFFF - x % 0x1_0000);
  }

  lemma JoinBytes(hi: Byte, lo: Byte)
    ensures Or(ShiftLeft(hi, 8), lo) == Word(hi, lo)
    ensures ShiftLeft(hi, 8) == Word(hi, 0)
  {
    assert Pow2(8) == 256;
    OrShifted(hi, 8, lo);
    ShiftLeftValue(hi, 8);
  }

  lemma EvenPart(n: nat)
    ensures And(n, Not(1)) == n - n % 2 == 2 * (n / 2)
  {
    assert Not(1) / 2 == -1;
  }

  // ----- how large the total can get

  function TotalLen(buffers: seq<Buffer>): nat {
    if buffers == [] then 0 else TotalLen(buffers[..|buffers| - 1]) + |buffers[|buffers| - 1]|
  }

  const QUAD: nat := 0x1_0000_0000_0000_0000

  lemma {:induction false} SumQuadsBound(b: Buffer, offset: nat, count: nat)
    requires offset + 8 * count <= |b|
    ensures SumQuads(b, offset, count) <= QUAD * count
  {
    if count == 0 {
    } else {
      SumQuadsBound(b, offset, count - 1);
    }
  }

  lemma {:induction false} SumWordsBound(b: Buffer, offset: nat, count: nat)
    requires offset + 2 * count <= |b|
    ensures SumWords(b, offset, count) <= 0xFFFF * count
  {
    if count == 0 {
    } else {
      SumWordsBound(b, offset, count - 1);
    }
  }

  lemma TailSumBound(b: Buffer, offset: nat)
    requires offset <= |b|
    ensures TailSum(b, offset) <= QUAD * (|b| - offset)
  {
    TailLayout(|b|, offset);
    var quads := (|b| - offset) / 8;
    var rest := offset + 8 * quads;
    SumQuadsBound(b, offset, quads);
    SumWordsBound(b, rest, (|b| - rest) / 2);
  }

  lemma {:induction false} AccumulateBound(buffers: seq<Buffer>, init: nat)
    ensures Accumulate(buffers, init).sum <= init + QUAD * TotalLen(buffers)
  {
    if buffers == [] {
    } else {
      var b := buffers[|buffers| - 1];
      var acc := Accumulate(buffers[..|buffers| - 1], init);
      AccumulateBound(buffers[..|buffers| - 1], init);
      TailSumBound(b, if acc.carry != 0 && b != [] then 1 else 0);
    }
  }

  /** Any packet is far inside the range where the folds are accurate. */
  ghost predicate Ordinary(buffers: seq<Buffer>, init: nat) {
    TotalLen(buffers) < 0xFFFF_FFFF && init < QUAD
  }

  lemma OrdinaryTotal(buffers: seq<Buffer>, init: nat)
    requires Ordinary(buffers, init)
    ensures Total(buffers, init) < LIMIT
  {
    AccumulateBound(buffers, init);
  }

  // ----- the main results

  /** The plain sum the checksum is about. */
  function PlainSum(buffers: seq<Buffer>, init: nat): nat {
    init + WordSum(Effective(buffers))
  }

  /** What a fifth fold would return. */
  function WithFifthFold(buffers: seq<Buffer>, init: nat): nat {
    Complement(Fold16(Folded(Total(buffers, init))))
  }

  /** The code returns the RFC 1071 checksum of the effective bytes, unless its third fold is 0x1FFFF;
      then it returns 0xFFFF where the checksum is 0xFFFE. A fifth fold removes the exception. */
  lemma ChecksumIsRfc1071(buffers: seq<Buffer>, init: nat)
    requires Total(buffers, init) < LIMIT
    ensures Checksum(buffers, init) == Rfc1071(PlainSum(buffers, init))
       <==> FoldedThrice(Total(buffers, init)) != 0x1_FFFF
    ensures FoldedThrice(Total(buffers, init)) == 0x1_FFFF ==>
      Checksum(buffers, init) == 0xFFFF && Rfc1071(PlainSum(buffers, init)) == 0xFFFE
    ensures WithFifthFold(buffers, init) == Rfc1071(PlainSum(buffers, init))
  {
    TotalRepresents(buffers, init);
    var total, s := Total(buffers, init), PlainSum(buffers, init);
    FoldedIsExact(total, s);
  }

  /** The receiver's test has no exception: zero exactly for a positive multiple of 65535. */
  lemma VerifiesIff(buffers: seq<Buffer>, init: nat)
    requires Total(buffers, init) < LIMIT
    ensures Checksum(buffers, init) == 0 <==> PlainSum(buffers, init) > 0 && PlainSum(buffers, init) % 0xFFFF == 0
  {
    TotalRepresents(buffers, init);
    var total, s := Total(buffers, init), PlainSum(buffers, init);
    FoldedIsExact(total, s);
  }

  function Fill(m: Buffer, k: nat, c: int): Buffer
    requires k + 2 <= |m| && 0 <= c <= 0xFFFF
  {
    m[k := c / 256][k + 1 := c % 256]
  }

  lemma FillAddsField(m: Buffer, k: nat, c: int)
    requires k + 2 <= |m| && k % 2 == 0 && m[k] == m[k + 1] == 0 && 0 <= c <= 0xFFFF
    ensures WordSum(Fill(m, k, c)) == WordSum(m) + c
  {
    MiddleWord(m, k);
    var f := Fill(m, k, c);
    MiddleWord(f, k);
    assert f[..k] == m[..k] && f[k + 2..] == m[k + 2..];
    SplitWord(c);
  }

  lemma SplitWord(c: int)
    requires 0 <= c <= 0xFFFF
    ensures Word(c / 256, c % 256) == c
  {
  }

  lemma MiddleWord(m: Buffer, k: nat)
    requires k + 2 <= |m| && k % 2 == 0
    ensures WordSum(m) == WordSum(m[..k]) + Word(m[k], m[k + 1]) + WordSum(m[k + 2..])
  {
    assert m == m[..k] + m[k..];
    WordSumAppend(m[..k], m[k..]);
    assert m[k..][2..] == m[k + 2..];
  }

  lemma SingleBuffer(b: Buffer)
    ensures Effective([b]) == b && TotalLen([b]) == |b|
  {
    assert [b][..0] == [];
    assert Effective([]) == [] && Joined([], b) == [] + b == b;
  }

  lemma ChecksumRange(buffers: seq<Buffer>, init: nat)
    requires Total(buffers, init) < LIMIT
    ensures 0 <= Checksum(buffers, init) <= 0xFFFF
  {
    TotalRepresents(buffers, init);
    FoldedFacts(Total(buffers, init), init + WordSum(Effective(buffers)));
    ComplementValue(Folded(Total(buffers, init)));
  }

  lemma ChecksumCancels(buffers: seq<Buffer>, init: nat)
    requires Total(buffers, init) < LIMIT
    ensures var s := PlainSum(buffers, init) + Checksum(buffers, init);
      s > 0 && s % 0xFFFF == 0 <==> FoldedThrice(Total(buffers, init)) != 0x1_FFFF
  {
    ChecksumIsRfc1071(buffers, init);
    SelfCancel(PlainSum(buffers, init), Checksum(buffers, init));
  }

  /** A message carrying its own checksum in a field that was zero verifies to zero, exactly when
      the sender's third fold was not 0x1FFFF. */
  lemma FilledVerifiesIff(m: Buffer, k: nat, init: nat)
    requires k + 2 <= |m| && k % 2 == 0 && m[k] == m[k + 1] == 0
    requires Ordinary([m], init)
    ensures 0 <= Checksum([m], init) <= 0xFFFF
    ensures Checksum([Fill(m, k, Checksum([m], init))], init) == 0 <==> FoldedThrice(Total([m], init)) != 0x1_FFFF
  {
    OrdinaryTotal([m], init);
    ChecksumRange([m], init);
    var c := Checksum([m], init);
    var m' := Fill(m, k, c);
    SingleBuffer(m);
    SingleBuffer(m');
    OrdinaryTotal([m'], init);
    FillAddsField(m, k, c);
    VerifiesIff([m'], init);
    assert PlainSum([m'], init) == PlainSum([m], init) + c;
    ChecksumCancels([m], init);
  }

  /** Adding the true checksum gives a positive multiple of 65535; adding 0xFFFF for 0xFFFE does not. */
  lemma SelfCancel(s: nat, c: int)
    requires c == Rfc1071(s) || (c == 0xFFFF && Rfc1071(s) == 0xFFFE)
    ensures s + c > 0 && (s + c) % 0xFFFF == 0 <==> c == Rfc1071(s)
  {
    if s > 0 {
      var q, r := (s - 1) / 0xFFFF, (s - 1) % 0xFFFF;
      assert s == q * 0xFFFF + r + 1;
      if c == Rfc1071(s) {
        DivModUnique(s + c, 0xFFFF, q + 1, 0);
      } else {
        DivModUnique(s + c, 0xFFFF, q + 1, 1);
      }
    }
  }

  // ----- several buffers against their concatenation

  function Concat(buffers: seq<Buffer>): Buffer {
    if buffers == [] then [] else Concat(buffers[..|buffers| - 1]) + buffers[|buffers| - 1]
  }

  /** The plain sum of the concatenation. */
  function WholeSum(buffers: seq<Buffer>, init: nat): nat {
    init + WordSum(Concat(buffers))
  }

  /** The residues, and so the true checksums, of what the code reads and of the concatenation agree. */
  predicate ReadsRight(buffers: seq<Buffer>, init: nat) {
    Rfc1071(PlainSum(buffers, init)) == Rfc1071(WholeSum(buffers, init))
  }

  /** Reading b after the buffers in front forgets a zero byte. */
  predicate Forgets(front: seq<Buffer>, b: Buffer) {
    DanglingZero(Effective(front)) && b != []
  }

  /** How many zero bytes are forgotten. While the number is odd, what the code takes for the high
      byte of a word is the low byte of one in the concatenation, and the other way round. */
  function Forgotten(buffers: seq<Buffer>): nat {
    if buffers == [] then 0 else
      var front, b := buffers[..|buffers| - 1], buffers[|buffers| - 1];
      Forgotten(front) + if Forgets(front, b) then 1 else 0
  }

  function ForgottenAfter(front: seq<Buffer>, b: Buffer): nat {
    Forgotten(front) + if Forgets(front, b) then 1 else 0
  }

  function Blank(n: nat): (r: Buffer)
    ensures |r| == n
  {
    seq(n, i => 0)
  }

  /** The effective bytes with everything blanked out that is read in step with the concatenation. */
  function OutOfStep(buffers: seq<Buffer>): Buffer {
    if buffers == [] then [] else
      var front, b := buffers[..|buffers| - 1], buffers[|buffers| - 1];
      Padded(OutOfStep(front), Forgets(front, b)) + Seen(b, ForgottenAfter(front, b))
  }

  function Padded(o: Buffer, forgets: bool): Buffer {
    if forgets then o + [0] else o
  }

  /** What is out of step of b after so many forgotten bytes. */
  function Seen(b: Buffer, forgotten: nat): (r: Buffer)
    ensures |r| == |b|
  {
    if forgotten % 2 == 1 then b else Blank(|b|)
  }

  function Drift(buffers: seq<Buffer>): nat {
    WordSum(OutOfStep(buffers))
  }

  /** The words read out of step cancel out: they add up to a multiple of 257. */
  predicate CancelsOut(buffers: seq<Buffer>) {
    Drift(buffers) % 257 == 0
  }

  /** What the byte v is worth at position i. */
  function Worth(i: nat, v: Byte): nat {
    if i % 2 == 0 then 256 * v else v
  }

  lemma AppendByte(s: Buffer, v: Byte)
    ensures WordSum(s + [v]) == WordSum(s) + Worth(|s|, v)
  {
    if |s| % 2 == 0 {
      StartWord(s, v);
    } else {
      CompleteWord(s, v);
    }
  }

  lemma StartWord(s: Buffer, v: Byte)
    requires |s| % 2 == 0
    ensures WordSum(s + [v]) == WordSum(s) + 256 * v
  {
    WordSumAppend(s, [v]);
    OneByte(v);
  }

  lemma OneByte(v: Byte)
    ensures WordSum([v]) == Word(v, 0) == 256 * v
  {
  }

  lemma TwoBytes(u: Byte, v: Byte)
    ensures WordSum([u, v]) == Word(u, v) == Word(u, 0) + v
  {
    var two: Buffer := [u, v];
    assert two[2..] == [];
  }

  lemma CompleteWord(s: Buffer, v: Byte)
    requires |s| % 2 == 1
    ensures WordSum(s + [v]) == WordSum(s) + v
  {
    LastByte(s);
    CompletePair(s[..|s| - 1], s[|s| - 1], v);
  }

  lemma LastByte(s: Buffer)
    requires s != []
    ensures s[..|s| - 1] + [s[|s| - 1]] == s
    ensures |s| % 2 == 1 ==> |s[..|s| - 1]| % 2 == 0
  {
  }

  lemma CompletePair(front: Buffer, u: Byte, v: Byte)
    requires |front| % 2 == 0
    ensures WordSum(front + [u] + [v]) == WordSum(front + [u]) + v
  {
    assert front + [u] + [v] == front + [u, v];
    WordSumAppend(front, [u]);
    WordSumAppend(front, [u, v]);
    OneByte(u);
    TwoBytes(u, v);
  }

  /** e is read for c, with the bytes o of e out of step: exchanging the two bytes of a word changes
      the sum by 255 times the word, modulo 65535. */
  ghost predicate ReadFor(e: Buffer, c: Buffer, o: Buffer) {
    && |e| == |o| >= |c|
    && (WordSum(e) == 0 <==> WordSum(c) == 0)
    && exists k: nat :: WordSum(e) + 255 * WordSum(o) == WordSum(c) + Nines(k)
  }

  lemma ReadByte(e: Buffer, c: Buffer, o: Buffer, v: Byte)
    requires ReadFor(e, c, o)
    ensures ReadFor(e + [v], c + [v], o + [if (|e| - |c|) % 2 == 1 then v else 0])
  {
    var k: nat :| WordSum(e) + 255 * WordSum(o) == WordSum(c) + Nines(k);
    var x: Byte := if (|e| - |c|) % 2 == 1 then v else 0;
    AppendByte(e, v);
    AppendByte(c, v);
    AppendByte(o, x);
    var k' := if |e| % 2 == 0 then k + x else k;
    ByteBalance(|e|, |c|, v, x);
    assert Nines(k') == Nines(k) + if |e| % 2 == 0 then 0xFFFF * x else 0;
    assert WordSum(e + [v]) + 255 * WordSum(o + [x]) == WordSum(c + [v]) + Nines(k');
  }

  lemma ByteBalance(m: nat, n: nat, v: Byte, x: Byte)
    requires m >= n && x == if (m - n) % 2 == 1 then v else 0
    ensures Worth(m, v) + 255 * Worth(m, x) == Worth(n, v) + if m % 2 == 0 then 0xFFFF * x else 0
  {
  }

  lemma {:induction false} ReadBytes(e: Buffer, c: Buffer, o: Buffer, b: Buffer, shift: nat)
    requires ReadFor(e, c, o) && |e| == |c| + shift
    ensures ReadFor(e + b, c + b, o + Seen(b, shift))
  {
    if b == [] {
      assert e + b == e && c + b == c && o + Seen(b, shift) == o;
    } else {
      var n := |b| - 1;
      ReadBytes(e, c, o, b[..n], shift);
      ReadByte(e + b[..n], c + b[..n], o + Seen(b[..n], shift), b[n]);
      LastByte(b);
      SeenLast(b, shift);
      AppendAssoc(e, b[..n], [b[n]], b);
      AppendAssoc(c, b[..n], [b[n]], b);
      AppendAssoc(o, Seen(b[..n], shift), Seen([b[n]], shift), Seen(b, shift));
    }
  }

  lemma SeenLast(b: Buffer, shift: nat)
    requires b != []
    ensures Seen(b, shift) == Seen(b[..|b| - 1], shift) + Seen([b[|b| - 1]], shift)
    ensures Seen([b[|b| - 1]], shift) == [if shift % 2 == 1 then b[|b| - 1] else 0]
  {
  }

  lemma AppendAssoc(x: Buffer, y: Buffer, z: Buffer, yz: Buffer)
    requires yz == y + z
    ensures x + y + z == x + yz
  {
  }

  lemma ReadPad(e: Buffer, c: Buffer, o: Buffer)
    requires ReadFor(e, c, o)
    ensures ReadFor(e + [0], c, o + [0])
  {
    AppendByte(e, 0);
    AppendByte(o, 0);
  }

  lemma {:induction false} EffectiveReadFor(buffers: seq<Buffer>)
    ensures ReadFor(Effective(buffers), Concat(buffers), OutOfStep(buffers))
    ensures |Effective(buffers)| == |Concat(buffers)| + Forgotten(buffers)
  {
    if buffers == [] {
      assert WordSum([]) + 255 * WordSum([]) == WordSum([]) + Nines(0);
    } else {
      var front, b := buffers[..|buffers| - 1], buffers[|buffers| - 1];
      EffectiveReadFor(front);
      ReadJoined(Effective(front), Concat(front), OutOfStep(front), b, Forgotten(front), ForgottenAfter(front, b));
    }
  }

  /** One more buffer, with the zero byte that the code supplies where it forgot one. */
  lemma ReadJoined(e: Buffer, c: Buffer, o: Buffer, b: Buffer, shift: nat, shift': nat)
    requires ReadFor(e, c, o) && |e| == |c| + shift
    requires shift' == shift + if DanglingZero(e) && b != [] then 1 else 0
    ensures |Joined(e, b)| == |c + b| + shift'
    ensures ReadFor(Joined(e, b), c + b, Padded(o, DanglingZero(e) && b != []) + Seen(b, shift'))
  {
    if DanglingZero(e) && b != [] {
      ReadPad(e, c, o);
      ReadBytes(e + [0], c, o + [0], b, shift');
    } else {
      ReadBytes(e, c, o, b, shift');
    }
  }

  lemma {:induction false} ResidueCongruent(s: nat, t: nat, j: int)
    requires s - t == 0xFFFF * j && (s == 0 <==> t == 0)
    ensures Residue(s) == Residue(t)
  {
    if t > 0 {
      var q, r := (t - 1) / 0xFFFF, (t - 1) % 0xFFFF;
      DivModUnique(s - 1, 0xFFFF, q + j, r);
    }
  }

  lemma ResidueDifference(s: nat, t: nat) returns (j: int)
    requires Residue(s) == Residue(t)
    ensures s - t == 0xFFFF * j
  {
    j := if s == 0 then 0 else (s - 1) / 0xFFFF - (t - 1) / 0xFFFF;
  }

  lemma ResidueIff(s: nat, t: nat, w: nat, k: nat)
    requires s + 255 * w == t + Nines(k) && (s == 0 <==> t == 0)
    ensures Residue(s) == Residue(t) <==> w % 257 == 0
  {
    if w % 257 == 0 {
      ResidueCongruent(s, t, k - w / 257);
    }
    if Residue(s) == Residue(t) {
      var j := ResidueDifference(s, t);
      DivModUnique(w, 257, k - j, 0);
    }
  }

  /** What the code reads has the residue of the concatenation exactly when the words read out of
      step cancel out. */
  lemma ReadsRightIff(buffers: seq<Buffer>, init: nat)
    ensures ReadsRight(buffers, init) <==> CancelsOut(buffers)
  {
    EffectiveReadFor(buffers);
    var e, c, o := WordSum(Effective(buffers)), WordSum(Concat(buffers)), WordSum(OutOfStep(buffers));
    var k: nat :| e + 255 * o == c + Nines(k);
    ResidueIff(init + e, init + c, o, k);
    ResidueRange(init + e);
    ResidueRange(init + c);
  }

  lemma ResidueRange(s: nat)
    ensures Residue(s) <= 0xFFFF && (Residue(s) == 0 <==> s == 0)
  {
  }

  lemma SumsVanishTogether(buffers: seq<Buffer>, init: nat)
    ensures PlainSum(buffers, init) == 0 <==> WholeSum(buffers, init) == 0
  {
    EffectiveReadFor(buffers);
  }

  /** Splitting a message into buffers keeps its checksum exactly when the words read out of step
      cancel out and four folds are enough. */
  lemma SplitChecksum(buffers: seq<Buffer>, init: nat)
    requires Total(buffers, init) < LIMIT
    ensures Checksum(buffers, init) == Rfc1071(WholeSum(buffers, init))
       <==> CancelsOut(buffers) && FoldedThrice(Total(buffers, init)) != 0x1_FFFF
  {
    PlainRepresents(buffers, init);
    SumsCompared(buffers, init);
    ChecksumAgainst(buffers, init, PlainSum(buffers, init), WholeSum(buffers, init), Drift(buffers));
  }

  lemma ChecksumAgainst(buffers: seq<Buffer>, init: nat, s: nat, t: nat, w: nat)
    requires Total(buffers, init) < LIMIT && Represents(Total(buffers, init), s) && Compared(s, t, w)
    ensures Checksum(buffers, init) == Rfc1071(t) <==> w % 257 == 0 && FoldedThrice(Total(buffers, init)) != 0x1_FFFF
  {
    FoldedAgainst(Total(buffers, init), s, t, w);
  }

  lemma PlainRepresents(buffers: seq<Buffer>, init: nat)
    ensures Represents(Total(buffers, init), PlainSum(buffers, init))
  {
    TotalRepresents(buffers, init);
  }

  lemma SumsCompared(buffers: seq<Buffer>, init: nat)
    ensures Compared(PlainSum(buffers, init), WholeSum(buffers, init), Drift(buffers))
  {
    ReadsRightIff(buffers, init);
    SumsVanishTogether(buffers, init);
  }

  /** Two sums that vanish together, and have the same checksum exactly when w is a multiple of 257. */
  ghost predicate Compared(s: nat, t: nat, w: nat) {
    (s == 0 <==> t == 0) && (Rfc1071(s) == Rfc1071(t) <==> w % 257 == 0)
  }

  lemma FoldedAgainst(total: nat, s: nat, t: nat, w: nat)
    requires total < LIMIT && Represents(total, s) && Compared(s, t, w)
    ensures Complement(Folded(total)) == Rfc1071(t) <==> w % 257 == 0 && FoldedThrice(total) != 0x1_FFFF
  {
    FoldedIsExact(total, s);
    AllOnesTogether(s, t);
  }

  /** Only a zero sum has the checksum 0xFFFF, so the two sums reach it together. */
  lemma AllOnesTogether(s: nat, t: nat)
    requires s == 0 <==> t == 0
    ensures Rfc1071(s) == 0xFFFF <==> Rfc1071(t) == 0xFFFF
  {
    ResidueRange(s);
    ResidueRange(t);
  }

  /** The code gives a list of buffers the result it gives their concatenation exactly when the words
      read out of step cancel out and the fold exception hits both or neither. */
  lemma SplitOrWhole(buffers: seq<Buffer>, init: nat)
    requires Total(buffers, init) < LIMIT && Total([Concat(buffers)], init) < LIMIT
    ensures Checksum(buffers, init) == Checksum([Concat(buffers)], init)
       <==> CancelsOut(buffers)
            && (FoldedThrice(Total(buffers, init)) == 0x1_FFFF
                <==> FoldedThrice(Total([Concat(buffers)], init)) == 0x1_FFFF)
  {
    PlainRepresents(buffers, init);
    WholeRepresents(Concat(buffers), init);
    SumsCompared(buffers, init);
    ChecksumsAgainst(buffers, [Concat(buffers)], init,
                     PlainSum(buffers, init), WholeSum(buffers, init), Drift(buffers));
  }

  lemma ChecksumsAgainst(buffers: seq<Buffer>, whole: seq<Buffer>, init: nat, s: nat, t: nat, w: nat)
    requires Total(buffers, init) < LIMIT && Represents(Total(buffers, init), s)
    requires Total(whole, init) < LIMIT && Represents(Total(whole, init), t) && Compared(s, t, w)
    ensures Checksum(buffers, init) == Checksum(whole, init)
       <==> w % 257 == 0
            && (FoldedThrice(Total(buffers, init)) == 0x1_FFFF <==> FoldedThrice(Total(whole, init)) == 0x1_FFFF)
  {
    BothFolded(Total(buffers, init), s, Total(whole, init), t, w);
  }

  lemma WholeRepresents(b: Buffer, init: nat)
    ensures Represents(Total([b], init), init + WordSum(b))
  {
    SingleBuffer(b);
    TotalRepresents([b], init);
  }

  lemma BothFolded(total: nat, s: nat, total': nat, t: nat, w: nat)
    requires total < LIMIT && Represents(total, s) && total' < LIMIT && Represents(total', t) && Compared(s, t, w)
    ensures Complement(Folded(total)) == Complement(Folded(total'))
       <==> w % 257 == 0 && (FoldedThrice(total) == 0x1_FFFF <==> FoldedThrice(total') == 0x1_FFFF)
  {
    FoldedIsExact(total, s);
    FoldedIsExact(total', t);
    FoldedAgainst(total, s, t, w);
    AllOnesTogether(s, t);
  }

  /** At no boundary with an odd number of bytes before it and bytes after it is the last byte zero. */
  predicate NoZeroCarried(buffers: seq<Buffer>) {
    if buffers == [] then true else
      var front := buffers[..|buffers| - 1];
      NoZeroCarried(front) && (DanglingZero(Concat(front)) ==> buffers[|buffers| - 1] == [])
  }

  /** Then nothing is read out of step. */
  lemma {:induction false} NothingForgotten(buffers: seq<Buffer>)
    requires NoZeroCarried(buffers)
    ensures Effective(buffers) == Concat(buffers) && Forgotten(buffers) == 0
    ensures CancelsOut(buffers)
  {
    if buffers == [] {
    } else {
      var front, b := buffers[..|buffers| - 1], buffers[|buffers| - 1];
      NothingForgotten(front);
      BlankSum(OutOfStep(front), |b|);
    }
  }

  lemma {:induction false} BlankSum(s: Buffer, n: nat)
    ensures WordSum(s + Blank(n)) == WordSum(s)
  {
    if n == 0 {
      assert s + Blank(0) == s;
    } else {
      BlankSum(s, n - 1);
      AppendByte(s + Blank(n - 1), 0);
      assert s + Blank(n) == s + Blank(n - 1) + [0];
    }
  }

  /** The next byte would be read in step. */
  predicate NextInStep(buffers: seq<Buffer>) {
    (Forgotten(buffers) + if DanglingZero(Effective(buffers)) then 1 else 0) % 2 == 0
  }

  /** Reading on is right whatever buffer comes next exactly when it has been right so far and the
      next byte is in step. */
  lemma ReadsOnIff(buffers: seq<Buffer>, init: nat)
    ensures (forall b: Buffer :: ReadsRight(buffers + [b], init)) <==> CancelsOut(buffers) && NextInStep(buffers)
  {
    var none: Buffer, one: Buffer := [], [1];
    if !CancelsOut(buffers) {
      NextAddsNothing(buffers, none);
      ReadsRightIff(buffers + [none], init);
    } else if !NextInStep(buffers) {
      MisreadOne(buffers);
      ReadsRightIff(buffers + [one], init);
    } else {
      forall b: Buffer
        ensures ReadsRight(buffers + [b], init)
      {
        NextAddsNothing(buffers, b);
        ReadsRightIff(buffers + [b], init);
      }
    }
  }

  /** What one more buffer adds to the bytes read out of step. */
  lemma NextBuffer(buffers: seq<Buffer>, b: Buffer)
    ensures OutOfStep(buffers + [b])
         == Padded(OutOfStep(buffers), Forgets(buffers, b)) + Seen(b, ForgottenAfter(buffers, b))
  {
    FrontAndLast(buffers, b);
    LastBuffer(buffers + [b], buffers, b);
  }

  lemma FrontAndLast(buffers: seq<Buffer>, b: Buffer)
    ensures var all := buffers + [b];
      all != [] && all[..|all| - 1] == buffers && all[|all| - 1] == b
  {
  }

  lemma LastBuffer(all: seq<Buffer>, front: seq<Buffer>, b: Buffer)
    requires all != [] && all[..|all| - 1] == front && all[|all| - 1] == b
    ensures OutOfStep(all) == Padded(OutOfStep(front), Forgets(front, b)) + Seen(b, ForgottenAfter(front, b))
  {
  }

  lemma PaddedSum(o: Buffer, forgets: bool)
    ensures WordSum(Padded(o, forgets)) == WordSum(o)
  {
    AppendByte(o, 0);
  }

  /** Nothing, or something read in step, adds nothing to them. */
  lemma NextAddsNothing(buffers: seq<Buffer>, b: Buffer)
    requires b == [] || NextInStep(buffers)
    ensures Drift(buffers + [b]) == Drift(buffers)
  {
    NextBuffer(buffers, b);
    SeenInStep(buffers, b);
    AddsBlank(OutOfStep(buffers), Forgets(buffers, b), |b|);
  }

  lemma SeenInStep(buffers: seq<Buffer>, b: Buffer)
    requires b == [] || NextInStep(buffers)
    ensures Seen(b, ForgottenAfter(buffers, b)) == Blank(|b|)
  {
  }

  lemma AddsBlank(o: Buffer, forgets: bool, n: nat)
    ensures WordSum(Padded(o, forgets) + Blank(n)) == WordSum(o)
  {
    PaddedSum(o, forgets);
    BlankSum(Padded(o, forgets), n);
  }

  /** A byte 1 read out of step is worth 256 or 1, neither a multiple of 257. */
  lemma MisreadOne(buffers: seq<Buffer>)
    requires CancelsOut(buffers) && !NextInStep(buffers)
    ensures !CancelsOut(buffers + [[1]])
  {
    var one: Buffer := [1];
    NextBuffer(buffers, one);
    assert Seen(one, ForgottenAfter(buffers, one)) == one;
    AddsOne(OutOfStep(buffers), Forgets(buffers, one));
  }

  lemma AddsOne(o: Buffer, forgets: bool)
    requires WordSum(o) % 257 == 0
    ensures WordSum(Padded(o, forgets) + [1]) % 257 != 0
  {
    PaddedSum(o, forgets);
    AppendByte(Padded(o, forgets), 1);
    OneMore(WordSum(o), |Padded(o, forgets)|);
  }

  lemma OneMore(w: nat, i: nat)
    requires w % 257 == 0
    ensures (w + Worth(i, 1)) % 257 != 0
  {
    DivModUnique(w + Worth(i, 1), 257, w / 257, Worth(i, 1));
  }

  // ----- witnesses of the two exceptions

  lemma FoldExceptionFolds()
    ensures FoldedThrice(0x1_0000_FFFF_FFFF) == 0x1_FFFF && 0x1_0000_FFFF_FFFF < LIMIT
  {
    assert Fold64(0x1_0000_FFFF_FFFF) == 0x1_0000_FFFF_FFFF;
    assert Fold32(0x1_0000_FFFF_FFFF) == 0x1_0000_FFFF;
    assert Fold16(0x1_0000_FFFF) == 0x1_FFFF;
  }

  lemma FoldExceptionTotal(w: Buffer)
    requires w == [0x00, 0x01, 0x00, 0x00, 0xFF, 0xFF, 0xFF, 0xFF]
    ensures Total([w], 0) == 0x1_0000_FFFF_FFFF
  {
    assert [w][..0] == [];
    assert Accumulate([], 0) == Acc(0, 0);
    assert SumQuads(w, 0, 1) == SumQuads(w, 0, 0) + QuadAt(w, 0) == 0x1_0000_FFFF_FFFF;
    assert TailSum(w, 0) == SumQuads(w, 0, 1) + SumWords(w, 8, 0);
  }

  /** Eight bytes on which four folds are one too few. */
  lemma FoldException()
    ensures var w: Buffer := [0x00, 0x01, 0x00, 0x00, 0xFF, 0xFF, 0xFF, 0xFF];
      Total([w], 0) < LIMIT && Checksum([w], 0) == 0xFFFF && Rfc1071(PlainSum([w], 0)) == 0xFFFE
  {
    var w: Buffer := [0x00, 0x01, 0x00, 0x00, 0xFF, 0xFF, 0xFF, 0xFF];
    FoldExceptionTotal(w);
    FoldExceptionFolds();
    ChecksumIsRfc1071([w], 0);
  }

  /** One message, two checksums: split after its zero first byte, and whole. */
  lemma CarryException()
    ensures var split: seq<Buffer>, whole: seq<Buffer> := [[0], [1]], [[0, 1]];
      Concat(split) == Concat(whole) && Checksum(split, 0) == 0xFEFF && Checksum(whole, 0) == 0xFFFE
  {
    var zero: Buffer, one: Buffer, both: Buffer := [0], [1], [0, 1];
    var split: seq<Buffer>, whole: seq<Buffer> := [zero, one], [both];
    ConcatOne(both);
    ConcatTwo(zero, one);
    SmallTotals(zero, one, both);
    SmallChecksum(split, 256);
    SmallChecksum(whole, 1);
  }

  lemma ConcatOne(b: Buffer)
    ensures Concat([b]) == b
  {
    assert [b][..0] == [];
    assert Concat([]) == [];
  }

  lemma ConcatTwo(b: Buffer, b': Buffer)
    ensures Concat([b, b']) == b + b'
  {
    assert [b, b'][..1] == [b];
    ConcatOne(b);
  }

  lemma SmallChecksum(buffers: seq<Buffer>, total: nat)
    requires Total(buffers, 0) == total <= 0xFFFF
    ensures Checksum(buffers, 0) == 0xFFFF - total
  {
    SmallFold(total);
  }

  lemma SmallFold(total: nat)
    requires total <= 0xFFFF
    ensures Complement(Folded(total)) == 0xFFFF - total
  {
    NothingToFold(total);
    assert Folded(total) == total;
    ComplementValue(total);
  }

  lemma NothingToFold(x: nat)
    requires x <= 0xFFFF
    ensures Fold64(x) == x && Fold32(x) == x && Fold16(x) == x
  {
    DivModUnique(x, 0x1_0000_0000_0000_0000, 0, x);
    DivModUnique(x, 0x1_0000_0000, 0, x);
    DivModUnique(x, 0x1_0000, 0, x);
  }

  lemma SmallTotals(zero: Buffer, one: Buffer, both: Buffer)
    requires zero == [0] && one == [1] && both == [0, 1]
    ensures Total([zero, one], 0) == 256 && Total([both], 0) == 1
  {
    assert [zero, one][..1] == [zero] && [zero][..0] == [] && [both][..0] == [];
    assert TailSum(zero, 0) == TailSum(one, 0) == 0;
    assert SumWords(both, 0, 1) == SumWords(both, 0, 0) + WordAt(both, 0) == 1;
    assert TailSum(both, 0) == 1;
    assert Accumulate([], 0) == Acc(0, 0);
    assert Accumulate([zero], 0) == Absorb(Acc(0, 0), zero) == Acc(0, 0);
    assert Accumulate([zero, one], 0) == Absorb(Acc(0, 0), one) == Acc(0, 1);
    assert Accumulate([both], 0) == Absorb(Acc(0, 0), both) == Acc(1, 0);
  }

  /** A split that forgets a zero byte and loses nothing: the word after it, 0x0101, is 257. */
  lemma CarryHarmless()
    ensures var split: seq<Buffer> := [[0], [1, 1]];
      !NoZeroCarried(split) && Checksum(split, 0) == Checksum([Concat(split)], 0) == 0xFEFE
  {
    var zero: Buffer, ones: Buffer, all: Buffer := [0], [1, 1], [0, 1, 1];
    var split: seq<Buffer> := [zero, ones];
    assert split[..1] == [zero];
    ConcatOne(zero);
    ConcatTwo(zero, ones);
    assert zero + ones == all;
    HarmlessTotals(zero, ones, all);
    SmallChecksum(split, 257);
    SmallChecksum([all], 257);
  }

  lemma HarmlessTotals(zero: Buffer, ones: Buffer, all: Buffer)
    requires zero == [0] && ones == [1, 1] && all == [0, 1, 1]
    ensures Total([zero, ones], 0) == 257 && Total([all], 0) == 257
  {
    assert [zero, ones][..1] == [zero] && [zero][..0] == [] && [all][..0] == [];
    assert TailSum(zero, 0) == 0;
    assert SumWords(ones, 0, 1) == SumWords(ones, 0, 0) + WordAt(ones, 0) == 257;
    assert TailSum(ones, 0) == 257;
    assert SumWords(all, 0, 1) == SumWords(all, 0, 0) + WordAt(all, 0) == 1;
    assert TailSum(all, 0) == 1;
    assert Accumulate([], 0) == Acc(0, 0);
    assert Accumulate([zero], 0) == Absorb(Acc(0, 0), zero) == Acc(0, 0);
    assert Accumulate([zero, ones], 0) == Absorb(Acc(0, 0), ones) == Acc(257, 0);
    assert Accumulate([all], 0) == Absorb(Acc(0, 0), all) == Acc(1, 1);
  }
}
