/** The datagram frame: address tag, control messages and payload in one blob. */
module DgramFrame {
  import opened Octets
  import opened Options

  /** A peer address: its packed form has 4 bytes for IPv4 and 16 for IPv6. */
  datatype Address = Address(ip: Bytes, port: int)

  datatype Cmsg = Cmsg(level: int, ctype: int, data: Bytes)

  datatype Dgram = Dgram(address: Option<Address>, cmsgs: seq<Cmsg>, payload: Bytes)

  datatype Error = OutOfRange | Empty | UnknownTag | CutInAddress | CutBeforeCount | CutInHeader | CutInData

  const TAG_NONE: Byte := 0
  const TAG_IP4: Byte := 4
  const TAG_IP6: Byte := 6

  // ----- two-byte fields

  predicate FitsField(n: int) {
    0 <= n < 0x1_0000
  }

  /** `n.to_bytes(2, "big")` */
  function ToField(n: int): (r: Bytes)
    requires FitsField(n)
    ensures |r| == 2
  {
    [n / 0x100, n % 0x100]
  }

  /** `int.from_bytes(field, "big")` */
  function FromField(b: Bytes): (n: int)
    requires |b| == 2
    ensures FitsField(n)
  {
    var hi: int, lo: int := b[0], b[1];
    0x100 * hi + lo
  }

  lemma FieldRoundTrip(n: int)
    requires FitsField(n)
    ensures FromField(ToField(n)) == n
  {
  }

  lemma FieldInverse(b: Bytes)
    requires |b| == 2
    ensures ToField(FromField(b)) == b
  {
    var hi: int, lo: int := b[0], b[1];
    assert (0x100 * hi + lo) / 0x100 == hi;
  }

  // ----- what can be encoded, and how

  predicate AddressFits(a: Address) {
    (|a.ip| == 4 || |a.ip| == 16) && FitsField(a.port)
  }

  predicate CmsgFits(c: Cmsg) {
    FitsField(c.level) && FitsField(c.ctype) && FitsField(|c.data|)
  }

  predicate Fits(d: Dgram) {
    && (d.address.Some? ==> AddressFits(d.address.value))
    && |d.cmsgs| < 256
    && forall i :: 0 <= i < |d.cmsgs| ==> CmsgFits(d.cmsgs[i])
  }

  function AddressBytes(a: Option<Address>): Bytes
    requires a.Some? ==> AddressFits(a.value)
  {
    if a.None? then [TAG_NONE]
    else [if |a.value.ip| == 4 then TAG_IP4 else TAG_IP6] + ToField(a.value.port) + a.value.ip
  }

  function CmsgBytes(c: Cmsg): Bytes
    requires CmsgFits(c)
  {
    ToField(c.level) + ToField(c.ctype) + ToField(|c.data|) + c.data
  }

  function CmsgsBytes(cs: seq<Cmsg>): Bytes
    requires forall i :: 0 <= i < |cs| ==> CmsgFits(cs[i])
  {
    if cs == [] then [] else CmsgBytes(cs[0]) + CmsgsBytes(cs[1..])
  }

  function Blob(d: Dgram): Bytes
    requires Fits(d)
  {
    AddressBytes(d.address) + [|d.cmsgs|] + CmsgsBytes(d.cmsgs) + d.payload
  }

  /** `encode_dgram`. A port, count, level, type or length that does not fit its field raises. */
  method EncodeDgram(d: Dgram) returns (r: Result<Bytes, Error>)
    requires d.address.Some? ==> |d.address.value.ip| == 4 || |d.address.value.ip| == 16
    ensures r == if Fits(d) then Ok(Blob(d)) else Err(OutOfRange)
  {
    var prefix: Bytes := [TAG_NONE];
    if d.address.Some? {
      var a := d.address.value;
      if !FitsField(a.port) {
        return Err(OutOfRange);
      }
      prefix := [if |a.ip| == 4 then TAG_IP4 else TAG_IP6] + ToField(a.port) + a.ip;
    }
    if |d.cmsgs| >= 256 {
      return Err(OutOfRange);
    }
    var parts := EncodeCmsgs(d.cmsgs);
    if parts.Err? {
      return Err(OutOfRange);
    }
    r := Ok(prefix + [|d.cmsgs|] + parts.value + d.payload);
  }

  /** The loop over the control messages. */
  method EncodeCmsgs(cs: seq<Cmsg>) returns (r: Result<Bytes, Error>)
    ensures r.Ok? <==> forall i :: 0 <= i < |cs| ==> CmsgFits(cs[i])
    ensures r.Ok? ==> r.value == CmsgsBytes(cs)
  {
    var parts: Bytes := [];
    for i := 0 to |cs|
      invariant forall j :: 0 <= j < i ==> CmsgFits(cs[j])
      invariant parts == CmsgsBytes(cs[..i])
    {
      var c := cs[i];
      if !CmsgFits(c) {
        return Err(OutOfRange);
      }
      AppendCmsg(cs[..i], c);
      assert cs[..i + 1] == cs[..i] + [c];
      parts := parts + (ToField(c.level) + ToField(c.ctype) + ToField(|c.data|) + c.data);
    }
    assert cs[..|cs|] == cs;
    r := Ok(parts);
  }

  lemma {:induction false} AppendCmsg(cs: seq<Cmsg>, c: Cmsg)
    requires (forall i :: 0 <= i < |cs| ==> CmsgFits(cs[i])) && CmsgFits(c)
    ensures CmsgsBytes(cs + [c]) == CmsgsBytes(cs) + CmsgBytes(c)
  {
    if cs == [] {
      assert [c][1..] == [];
    } else {
      AppendCmsg(cs[1..], c);
      assert (cs + [c])[1..] == cs[1..] + [c];
    }
  }

  // ----- decoding

  /** The address part: the address and the offset after it. */
  function ReadAddress(data: Bytes): Result<(Option<Address>, nat), Error> {
    if |data| == 0 then Err(Empty)
    else if data[0] == TAG_NONE then Ok((None, 1))
    else if data[0] != TAG_IP4 && data[0] != TAG_IP6 then Err(UnknownTag)
    else
      var end := 3 + if data[0] == TAG_IP4 then 4 else 16;
      if |data| < end then Err(CutInAddress)
      else Ok((Some(Address(data[3..end], FromField(data[1..3]))), end))
  }

  /** One control message at offset: the message and the offset after it. */
  function ReadCmsg(data: Bytes, offset: nat): Result<(Cmsg, nat), Error> {
    if |data| < offset + 6 then Err(CutInHeader)
    else
      var len := FromField(data[offset + 4..offset + 6]);
      var start := offset + 6;
      if |data| < start + len then Err(CutInData)
      else
        var level, ctype := FromField(data[offset..offset + 2]), FromField(data[offset + 2..offset + 4]);
        Ok((Cmsg(level, ctype, data[start..start + len]), start + len))
  }

  /** n control messages from offset on: the messages and the offset after them. */
  function ReadCmsgs(data: Bytes, offset: nat, n: nat): Result<(seq<Cmsg>, nat), Error>
    decreases n
  {
    if n == 0 then Ok(([], offset)) else
      match ReadCmsg(data, offset)
      case Err(e) => Err(e)
      case Ok((c, next)) =>
        match ReadCmsgs(data, next, n - 1)
        case Err(e) => Err(e)
        case Ok((cs, end)) => Ok(([c] + cs, end))
  }

  lemma {:induction false} ReadCmsgsBounds(data: Bytes, offset: nat, n: nat)
    requires offset <= |data|
    ensures var r := ReadCmsgs(data, offset, n);
      r.Ok? ==> |r.value.0| == n && offset <= r.value.1 <= |data|
    decreases n
  {
    if n == 0 || ReadCmsg(data, offset).Err? {
    } else {
      ReadCmsgsBounds(data, ReadCmsg(data, offset).value.1, n - 1);
    }
  }

  function Decode(data: Bytes): Result<Dgram, Error> {
    match ReadAddress(data)
    case Err(e) => Err(e)
    case Ok((address, offset)) =>
      if |data| < offset + 1 then Err(CutBeforeCount)
      else
        var count: nat := data[offset];
        ReadCmsgsBounds(data, offset + 1, count);
        match ReadCmsgs(data, offset + 1, count)
        case Err(e) => Err(e)
        case Ok((cs, end)) => Ok(Dgram(address, cs, data[end..]))
  }

  /** `decode_dgram`. Every index and slice is inside the blob. */
  method DecodeDgram(data: Bytes) returns (r: Result<Dgram, Error>)
    ensures r == Decode(data)
  {
    if |data| == 0 {
      return Err(Empty);
    }
    var tag := data[0];
    var address: Option<Address> := None;
    var offset := 1;
    if tag != TAG_NONE {
      var ipLen;
      if tag == TAG_IP4 {
        ipLen := 4;
      } else if tag == TAG_IP6 {
        ipLen := 16;
      } else {
        return Err(UnknownTag);
      }
      var ipStart := 3;
      offset := ipStart + ipLen;
      if |data| < offset {
        return Err(CutInAddress);
      }
      address := Some(Address(data[ipStart..offset], FromField(data[1..ipStart])));
    }
    if |data| < offset + 1 {
      return Err(CutBeforeCount);
    }
    var count: nat := data[offset];
    offset := offset + 1;
    var cmsgs := DecodeCmsgs(data, offset, count);
    ReadCmsgsBounds(data, offset, count);
    if cmsgs.Err? {
      return Err(cmsgs.error);
    }
    r := Ok(Dgram(address, cmsgs.value.0, data[cmsgs.value.1..]));
  }

  /** The loop over the control messages. */
  method DecodeCmsgs(data: Bytes, first: nat, count: nat) returns (r: Result<(seq<Cmsg>, nat), Error>)
    requires first <= |data|
    ensures r == ReadCmsgs(data, first, count)
  {
    var offset := first;
    var cmsgs: seq<Cmsg> := [];
    Unread(ReadCmsgs(data, first, count));
    for i := 0 to count
      invariant first <= offset <= |data|
      invariant ReadCmsgs(data, first, count) == Continue(cmsgs, ReadCmsgs(data, offset, count - i))
    {
      ReadOneMore(data, offset, count - i, cmsgs);
      var one := DecodeCmsg(data, offset);
      if one.Err? {
        return Err(one.error);
      }
      cmsgs := cmsgs + [one.value.0];
      offset := one.value.1;
    }
    assert cmsgs + [] == cmsgs;
    r := Ok((cmsgs, offset));
  }

  /** The body of that loop. */
  method DecodeCmsg(data: Bytes, first: nat) returns (r: Result<(Cmsg, nat), Error>)
    ensures r == ReadCmsg(data, first)
    ensures r.Ok? ==> first <= r.value.1 <= |data|
  {
    var offset := first;
    if |data| < offset + 6 {
      return Err(CutInHeader);
    }
    var level := FromField(data[offset..offset + 2]);
    var ctype := FromField(data[offset + 2..offset + 4]);
    var dataLen := FromField(data[offset + 4..offset + 6]);
    offset := offset + 6;
    if |data| < offset + dataLen {
      return Err(CutInData);
    }
    r := Ok((Cmsg(level, ctype, data[offset..offset + dataLen]), offset + dataLen));
  }

  /** What the messages read so far and the rest of the reading come to. */
  function Continue(cs: seq<Cmsg>, rest: Result<(seq<Cmsg>, nat), Error>): Result<(seq<Cmsg>, nat), Error> {
    match rest
    case Err(e) => Err(e)
    case Ok((more, end)) => Ok((cs + more, end))
  }

  lemma Unread(rest: Result<(seq<Cmsg>, nat), Error>)
    ensures Continue([], rest) == rest
  {
    if rest.Ok? {
      assert [] + rest.value.0 == rest.value.0;
    }
  }

  lemma ReadOneMore(data: Bytes, offset: nat, n: nat, cs: seq<Cmsg>)
    requires n > 0
    ensures match ReadCmsg(data, offset)
            case Err(e) => ReadCmsgs(data, offset, n) == Err(e)
            case Ok((c, next)) =>
              Continue(cs, ReadCmsgs(data, offset, n)) == Continue(cs + [c], ReadCmsgs(data, next, n - 1))
  {
    var one := ReadCmsg(data, offset);
    if one.Ok? {
      var rest := ReadCmsgs(data, one.value.1, n - 1);
      if rest.Ok? {
        assert cs + ([one.value.0] + rest.value.0) == cs + [one.value.0] + rest.value.0;
      }
    }
  }

  // ----- decoding undoes encoding

  lemma ReadAddressBytes(a: Option<Address>, rest: Bytes)
    requires a.Some? ==> AddressFits(a.value)
    ensures ReadAddress(AddressBytes(a) + rest) == Ok((a, |AddressBytes(a)|))
  {
    if a.Some? {
      var data := AddressBytes(a) + rest;
      FieldRoundTrip(a.value.port);
      assert data[1..3] == ToField(a.value.port);
      assert data[3..3 + |a.value.ip|] == a.value.ip;
    }
  }

  /** The bytes b stand in data at offset. */
  predicate StandsAt(b: Bytes, data: Bytes, offset: nat) {
    offset + |b| <= |data| && data[offset..offset + |b|] == b
  }

  lemma StandsSplit(x: Bytes, y: Bytes, data: Bytes, offset: nat)
    requires StandsAt(x + y, data, offset)
    ensures StandsAt(x, data, offset) && StandsAt(y, data, offset + |x|)
  {
    var s := data[offset..offset + |x + y|];
    assert s[..|x|] == x && s[|x|..] == y;
  }

  lemma ReadCmsgBytes(c: Cmsg, data: Bytes, n: nat)
    requires CmsgFits(c) && StandsAt(CmsgBytes(c), data, n)
    ensures ReadCmsg(data, n) == Ok((c, n + |CmsgBytes(c)|))
  {
    StandsSplit(ToField(c.level) + ToField(c.ctype) + ToField(|c.data|), c.data, data, n);
    StandsSplit(ToField(c.level) + ToField(c.ctype), ToField(|c.data|), data, n);
    StandsSplit(ToField(c.level), ToField(c.ctype), data, n);
    FieldRoundTrip(c.level);
    FieldRoundTrip(c.ctype);
    FieldRoundTrip(|c.data|);
  }

  lemma {:induction false} ReadCmsgsBytes(cs: seq<Cmsg>, data: Bytes, offset: nat, n: nat)
    requires n == |cs| && forall i :: 0 <= i < |cs| ==> CmsgFits(cs[i])
    requires StandsAt(CmsgsBytes(cs), data, offset)
    ensures ReadCmsgs(data, offset, n) == Ok((cs, offset + |CmsgsBytes(cs)|))
    decreases n
  {
    if cs == [] {
    } else {
      var b, tail := CmsgBytes(cs[0]), CmsgsBytes(cs[1..]);
      var next := offset + |b|;
      StandsSplit(b, tail, data, offset);
      ReadCmsgBytes(cs[0], data, offset);
      ReadCmsgsBytes(cs[1..], data, next, n - 1);
      ReadCmsgsCons(data, offset, cs, next, next + |tail|, n);
    }
  }

  lemma ReadCmsgsCons(data: Bytes, offset: nat, cs: seq<Cmsg>, next: nat, end: nat, n: nat)
    requires cs != [] && n > 0 && ReadCmsg(data, offset) == Ok((cs[0], next))
    requires ReadCmsgs(data, next, n - 1) == Ok((cs[1..], end))
    ensures ReadCmsgs(data, offset, n) == Ok((cs, end))
  {
    assert [cs[0]] + cs[1..] == cs;
  }

  /** Decoding an encoded datagram returns it. */
  lemma DecodeBlob(d: Dgram)
    requires Fits(d)
    ensures Decode(Blob(d)) == Ok(d)
  {
    var a := AddressBytes(d.address);
    var data := Blob(d);
    assert data == a + ([|d.cmsgs|] + CmsgsBytes(d.cmsgs) + d.payload);
    ReadAddressBytes(d.address, [|d.cmsgs|] + CmsgsBytes(d.cmsgs) + d.payload);
    assert data[|a|] == |d.cmsgs|;
    var pre: Bytes := a + [|d.cmsgs|];
    assert data == pre + CmsgsBytes(d.cmsgs) + d.payload;
    assert StandsAt(CmsgsBytes(d.cmsgs), data, |pre|);
    ReadCmsgsBytes(d.cmsgs, data, |pre|, |d.cmsgs|);
    assert data[|pre| + |CmsgsBytes(d.cmsgs)|..] == d.payload;
  }

  // ----- encoding undoes decoding

  lemma AddressBytesRead(data: Bytes)
    ensures var r := ReadAddress(data);
      r.Ok? ==>
        && (r.value.0.Some? ==> AddressFits(r.value.0.value))
        && r.value.1 <= |data| && AddressBytes(r.value.0) == data[..r.value.1]
  {
    var r := ReadAddress(data);
    if r.Ok? && r.value.0.Some? {
      FieldInverse(data[1..3]);
      assert data[..r.value.1] == [data[0]] + data[1..3] + data[3..r.value.1];
    }
  }

  lemma CmsgBytesRead(data: Bytes, offset: nat)
    ensures var r := ReadCmsg(data, offset);
      r.Ok? ==> CmsgFits(r.value.0) && offset < r.value.1 <= |data| && CmsgBytes(r.value.0) == data[offset..r.value.1]
  {
    var r := ReadCmsg(data, offset);
    if r.Ok? {
      FieldInverse(data[offset..offset + 2]);
      FieldInverse(data[offset + 2..offset + 4]);
      FieldInverse(data[offset + 4..offset + 6]);
    }
  }

  lemma {:induction false} CmsgsBytesRead(data: Bytes, offset: nat, n: nat)
    requires offset <= |data|
    ensures var r := ReadCmsgs(data, offset, n);
      r.Ok? ==>
        && |r.value.0| == n && offset <= r.value.1 <= |data|
        && (forall i :: 0 <= i < n ==> CmsgFits(r.value.0[i]))
        && CmsgsBytes(r.value.0) == data[offset..r.value.1]
    decreases n
  {
    var r := ReadCmsgs(data, offset, n);
    if n == 0 || r.Err? {
    } else {
      CmsgBytesRead(data, offset);
      var next := ReadCmsg(data, offset).value.1;
      CmsgsBytesRead(data, next, n - 1);
      CmsgsBytesCons(data, offset, next, ReadCmsg(data, offset).value.0, ReadCmsgs(data, next, n - 1).value);
    }
  }

  lemma CmsgsBytesCons(data: Bytes, offset: nat, next: nat, c: Cmsg, tail: (seq<Cmsg>, nat))
    requires offset <= next <= tail.1 <= |data| && CmsgFits(c) && CmsgBytes(c) == data[offset..next]
    requires forall i :: 0 <= i < |tail.0| ==> CmsgFits(tail.0[i])
    requires CmsgsBytes(tail.0) == data[next..tail.1]
    ensures forall i :: 0 <= i <= |tail.0| ==> CmsgFits(([c] + tail.0)[i])
    ensures CmsgsBytes([c] + tail.0) == data[offset..tail.1]
  {
    assert ([c] + tail.0)[1..] == tail.0;
    assert data[offset..tail.1] == data[offset..next] + data[next..tail.1];
  }

  /** Re-encoding any accepted blob reproduces it byte for byte. */
  lemma BlobOfDecoded(data: Bytes)
    requires Decode(data).Ok?
    ensures Fits(Decode(data).value) && Blob(Decode(data).value) == data
  {
    AddressBytesRead(data);
    var offset := ReadAddress(data).value.1;
    var count: nat := data[offset];
    CmsgsBytesRead(data, offset + 1, count);
    var end := ReadCmsgs(data, offset + 1, count).value.1;
    FourParts(data, offset, end);
  }

  lemma FourParts(data: Bytes, i: nat, j: nat)
    requires i < j <= |data|
    ensures data == data[..i] + [data[i]] + data[i + 1..j] + data[j..]
  {
  }

  // ----- the layout of a blob

  /** The two bytes at i, most significant first. */
  function FieldAt(b: Bytes, i: nat): int
    requires i + 2 <= |b|
  {
    var hi: int, lo: int := b[i], b[i + 1];
    256 * hi + lo
  }

  /** A control message at i: level, type and length in two bytes each, and then the data. */
  predicate CmsgAt(b: Bytes, i: nat, c: Cmsg) {
    && i + 6 + |c.data| <= |b|
    && FieldAt(b, i) == c.level && FieldAt(b, i + 2) == c.ctype && FieldAt(b, i + 4) == |c.data|
    && b[i + 6..i + 6 + |c.data|] == c.data
  }

  /** The control messages one after the other from i on, and after them the payload to the end. */
  predicate MessagesAt(b: Bytes, i: nat, cs: seq<Cmsg>, payload: Bytes)
    decreases |cs|
  {
    if cs == [] then i <= |b| && b[i..] == payload
    else CmsgAt(b, i, cs[0]) && MessagesAt(b, i + 6 + |cs[0].data|, cs[1..], payload)
  }

  /** The first byte is 0, 4 or 6 for no address, 4 bytes of address and 16; with an address its port
      follows in two bytes and then the address. */
  predicate AddressAt(b: Bytes, address: Option<Address>) {
    match address
    case None => 1 <= |b| && b[0] == 0
    case Some(a) =>
      && 3 + |a.ip| <= |b|
      && ((b[0] == 4 && |a.ip| == 4) || (b[0] == 6 && |a.ip| == 16))
      && FieldAt(b, 1) == a.port && b[3..3 + |a.ip|] == a.ip
  }

  function AddressEnd(address: Option<Address>): nat {
    if address.None? then 1 else 3 + |address.value.ip|
  }

  /** b lays out d: address, one byte with the number of control messages, the messages, the payload. */
  predicate LaysOut(b: Bytes, d: Dgram) {
    var n := AddressEnd(d.address);
    AddressAt(b, d.address) && n < |b| && b[n] == |d.cmsgs| && MessagesAt(b, n + 1, d.cmsgs, d.payload)
  }

  lemma FieldIff(b: Bytes, i: nat, n: int)
    requires i + 2 <= |b|
    ensures FieldAt(b, i) == n <==> FitsField(n) && b[i..i + 2] == ToField(n)
  {
    FieldInverse(b[i..i + 2]);
    if FitsField(n) {
      FieldRoundTrip(n);
    }
  }

  lemma AddressIff(b: Bytes, address: Option<Address>)
    ensures AddressAt(b, address) <==>
      && (address.Some? ==> AddressFits(address.value))
      && AddressEnd(address) <= |b| && b[..AddressEnd(address)] == AddressBytes(address)
  {
    if address.Some? && 3 <= |b| {
      FieldIff(b, 1, address.value.port);
      var n := AddressEnd(address);
      if n <= |b| {
        assert b[..n] == [b[0]] + b[1..3] + b[3..n];
      }
      if AddressFits(address.value) && n <= |b| && b[..n] == AddressBytes(address) {
        assert b[1..3] == b[..n][1..3] == ToField(address.value.port);
        assert b[3..n] == b[..n][3..n] == address.value.ip;
        assert b[0] == b[..n][0];
      }
    } else if address.None? && 1 <= |b| {
      assert b[..1] == [b[0]];
    }
  }

  lemma CmsgIff(b: Bytes, i: nat, c: Cmsg)
    requires i <= |b|
    ensures CmsgAt(b, i, c) <==>
      CmsgFits(c) && i + 6 + |c.data| <= |b| && b[i..i + 6 + |c.data|] == CmsgBytes(c)
  {
    var end := i + 6 + |c.data|;
    if end <= |b| {
      FieldIff(b, i, c.level);
      FieldIff(b, i + 2, c.ctype);
      FieldIff(b, i + 4, |c.data|);
      var bytes := b[i..end];
      assert bytes == b[i..i + 2] + b[i + 2..i + 4] + b[i + 4..i + 6] + b[i + 6..end];
      if CmsgFits(c) && bytes == CmsgBytes(c) {
        assert b[i..i + 2] == bytes[0..2] == ToField(c.level);
        assert b[i + 2..i + 4] == bytes[2..4] == ToField(c.ctype);
        assert b[i + 4..i + 6] == bytes[4..6] == ToField(|c.data|);
        assert b[i + 6..end] == bytes[6..] == c.data;
      }
    }
  }

  ghost predicate AllFit(cs: seq<Cmsg>) {
    forall i :: 0 <= i < |cs| ==> CmsgFits(cs[i])
  }

  lemma {:induction false} MessagesIff(b: Bytes, i: nat, cs: seq<Cmsg>, payload: Bytes)
    requires i <= |b|
    ensures MessagesAt(b, i, cs, payload) <==> AllFit(cs) && b[i..] == CmsgsBytes(cs) + payload
    decreases |cs|
  {
    if cs == [] {
      assert CmsgsBytes(cs) + payload == payload;
    } else {
      CmsgIff(b, i, cs[0]);
      var next := i + 6 + |cs[0].data|;
      assert cs == [cs[0]] + cs[1..];
      if next <= |b| {
        MessagesIff(b, next, cs[1..], payload);
        FirstMessageIff(b, i, next, cs, payload);
      } else if AllFit(cs) {
        assert |CmsgsBytes(cs) + payload| >= |CmsgBytes(cs[0])| == 6 + |cs[0].data|;
      }
    }
  }

  lemma FirstMessageIff(b: Bytes, i: nat, next: nat, cs: seq<Cmsg>, payload: Bytes)
    requires cs != [] && next == i + 6 + |cs[0].data| <= |b|
    ensures AllFit(cs) <==> CmsgFits(cs[0]) && AllFit(cs[1..])
    ensures AllFit(cs) ==> (b[i..] == CmsgsBytes(cs) + payload <==>
      b[i..next] == CmsgBytes(cs[0]) && b[next..] == CmsgsBytes(cs[1..]) + payload)
  {
    if AllFit(cs) {
      var first, tail := CmsgBytes(cs[0]), CmsgsBytes(cs[1..]) + payload;
      assert CmsgsBytes(cs) + payload == first + tail;
      assert b[i..] == b[i..next] + b[next..];
      if b[i..] == first + tail {
        assert b[i..next] == (first + tail)[..|first|] == first;
        assert b[next..] == (first + tail)[|first|..] == tail;
      }
    }
  }

  /** A blob lays out a datagram exactly when it is its encoding. */
  lemma LaysOutIff(b: Bytes, d: Dgram)
    ensures LaysOut(b, d) <==> Fits(d) && b == Blob(d)
  {
    if LaysOut(b, d) {
      LaidOutIsBlob(b, d);
    }
    if Fits(d) && b == Blob(d) {
      BlobIsLaidOut(d);
    }
  }

  lemma LaidOutIsBlob(b: Bytes, d: Dgram)
    requires LaysOut(b, d)
    ensures Fits(d) && b == Blob(d)
  {
    var n := AddressEnd(d.address);
    AddressIff(b, d.address);
    MessagesIff(b, n + 1, d.cmsgs, d.payload);
    FourPartsOf(b, n, CmsgsBytes(d.cmsgs), d.payload);
  }

  lemma FourPartsOf(b: Bytes, n: nat, cmsgs: Bytes, payload: Bytes)
    requires n < |b| && b[n + 1..] == cmsgs + payload
    ensures b == b[..n] + [b[n]] + cmsgs + payload
  {
    assert b == b[..n] + [b[n]] + b[n + 1..];
  }

  lemma BlobIsLaidOut(d: Dgram)
    requires Fits(d)
    ensures LaysOut(Blob(d), d)
  {
    var b, n := Blob(d), AddressEnd(d.address);
    PartsOf(AddressBytes(d.address), |d.cmsgs|, CmsgsBytes(d.cmsgs), d.payload);
    AddressIff(b, d.address);
    MessagesIff(b, n + 1, d.cmsgs, d.payload);
  }

  lemma PartsOf(head: Bytes, count: Byte, cmsgs: Bytes, payload: Bytes)
    ensures var b := head + [count] + cmsgs + payload;
      |head| < |b| && b[..|head|] == head && b[|head|] == count && b[|head| + 1..] == cmsgs + payload
  {
  }

  /** Decoding accepts exactly the blobs that lay out some datagram, and returns that one. */
  lemma DecodesIff(b: Bytes, d: Dgram)
    ensures Decode(b) == Ok(d) <==> LaysOut(b, d)
  {
    LaysOutIff(b, d);
    if Decode(b) == Ok(d) {
      BlobOfDecoded(b);
    }
    if LaysOut(b, d) {
      DecodeBlob(d);
    }
  }

  /** Of the ways to refuse a blob, those that its first byte and its length decide. */
  lemma RefusedIff(b: Bytes)
    ensures Decode(b) == Err(Empty) <==> b == []
    ensures Decode(b) == Err(UnknownTag) <==> b != [] && b[0] != 0 && b[0] != 4 && b[0] != 6
    ensures Decode(b) == Err(CutInAddress) <==> b != [] && ((b[0] == 4 && |b| < 7) || (b[0] == 6 && |b| < 19))
    ensures Decode(b) == Err(CutBeforeCount) <==>
      (|b| == 1 && b[0] == 0) || (|b| == 7 && b[0] == 4) || (|b| == 19 && b[0] == 6)
    ensures Decode(b) != Err(OutOfRange)
  {
    var head := ReadAddress(b);
    if head.Ok? && head.value.1 < |b| {
      ReadCmsgsErrors(b, head.value.1 + 1, b[head.value.1]);
    }
  }

  lemma {:induction false} ReadCmsgsErrors(data: Bytes, offset: nat, n: nat)
    ensures var r := ReadCmsgs(data, offset, n); r.Err? ==> r.error == CutInHeader || r.error == CutInData
    decreases n
  {
    if n == 0 || ReadCmsg(data, offset).Err? {
    } else {
      ReadCmsgsErrors(data, ReadCmsg(data, offset).value.1, n - 1);
    }
  }

  /** What is wrong with bytes that ought to start with a control message, if they are too few for it. */
  function Cut(rest: Bytes): Option<Error> {
    if |rest| < 6 then Some(CutInHeader) else if |rest| < 6 + FieldAt(rest, 4) then Some(CutInData) else None
  }

  /** Fewer than n control messages stand from i on, and then bytes cut short in the way of e. */
  ghost predicate StopsShort(b: Bytes, i: nat, n: nat, e: Error) {
    exists cs, rest :: |cs| < n && MessagesAt(b, i, cs, rest) && Cut(rest) == Some(e)
  }

  lemma CmsgRead(b: Bytes, i: nat, c: Cmsg)
    requires i <= |b|
    ensures CmsgAt(b, i, c) <==> ReadCmsg(b, i) == Ok((c, i + 6 + |c.data|))
    ensures Cut(b[i..]) == if ReadCmsg(b, i).Ok? then None else Some(ReadCmsg(b, i).error)
  {
    if i + 6 <= |b| {
      assert FieldAt(b[i..], 4) == FromField(b[i + 4..i + 6]);
    }
  }

  lemma {:induction false} ReadStopsIff(b: Bytes, i: nat, n: nat, e: Error)
    requires i <= |b|
    ensures ReadCmsgs(b, i, n) == Err(e) <==> StopsShort(b, i, n, e)
    decreases n
  {
    if n == 0 {
    } else {
      var one := ReadCmsg(b, i);
      if one.Err? {
        NoCmsgAt(b, i);
        StopsAtOnce(b, i, n, one.error, e);
      } else {
        var (c, next) := one.value;
        OneCmsgAt(b, i, c, next);
        ReadStopsIff(b, next, n - 1, e);
        StopsLater(b, i, n, c, e);
      }
    }
  }

  lemma NoCmsgAt(b: Bytes, i: nat)
    requires i <= |b| && ReadCmsg(b, i).Err?
    ensures Cut(b[i..]) == Some(ReadCmsg(b, i).error) && forall c :: !CmsgAt(b, i, c)
  {
    forall c
      ensures !CmsgAt(b, i, c) && Cut(b[i..]) == Some(ReadCmsg(b, i).error)
    {
      CmsgRead(b, i, c);
    }
  }

  lemma OneCmsgAt(b: Bytes, i: nat, c: Cmsg, next: nat)
    requires i <= |b| && ReadCmsg(b, i) == Ok((c, next))
    ensures Cut(b[i..]) == None && CmsgAt(b, i, c) && next == i + 6 + |c.data| <= |b|
    ensures forall c' :: CmsgAt(b, i, c') ==> c' == c
  {
    CmsgRead(b, i, c);
    forall c' | CmsgAt(b, i, c')
      ensures c' == c
    {
      CmsgRead(b, i, c');
    }
  }

  lemma StopsAtOnce(b: Bytes, i: nat, n: nat, first: Error, e: Error)
    requires i <= |b| && n > 0 && Cut(b[i..]) == Some(first) && forall c :: !CmsgAt(b, i, c)
    ensures StopsShort(b, i, n, e) <==> e == first
  {
    assert MessagesAt(b, i, [], b[i..]);
  }

  lemma StopsLater(b: Bytes, i: nat, n: nat, c: Cmsg, e: Error)
    requires i <= |b| && n > 0 && Cut(b[i..]) == None
    requires CmsgAt(b, i, c) && forall c' :: CmsgAt(b, i, c') ==> c' == c
    ensures StopsShort(b, i, n, e) <==> StopsShort(b, i + 6 + |c.data|, n - 1, e)
  {
    var next := i + 6 + |c.data|;
    if StopsShort(b, i, n, e) {
      var cs, rest :| |cs| < n && MessagesAt(b, i, cs, rest) && Cut(rest) == Some(e);
      assert cs != [] && cs[0] == c;
      assert MessagesAt(b, next, cs[1..], rest);
    }
    if StopsShort(b, next, n - 1, e) {
      var cs, rest :| |cs| < n - 1 && MessagesAt(b, next, cs, rest) && Cut(rest) == Some(e);
      OneMoreMessage(b, i, c, cs, rest);
    }
  }

  lemma OneMoreMessage(b: Bytes, i: nat, c: Cmsg, cs: seq<Cmsg>, rest: Bytes)
    requires CmsgAt(b, i, c) && MessagesAt(b, i + 6 + |c.data|, cs, rest)
    ensures MessagesAt(b, i, [c] + cs, rest)
  {
    assert ([c] + cs)[1..] == cs;
  }

  /** A blob whose address and count are there is refused exactly when it ends inside the header or the
      data of one of the announced messages, after complete ones. */
  lemma CutInMessagesIff(b: Bytes, address: Option<Address>, e: Error)
    requires AddressAt(b, address) && AddressEnd(address) < |b|
    ensures Decode(b) == Err(e) <==> StopsShort(b, AddressEnd(address) + 1, b[AddressEnd(address)], e)
  {
    var n := AddressEnd(address);
    AddressIff(b, address);
    assert b == AddressBytes(address) + b[n..];
    ReadAddressBytes(address, b[n..]);
    ReadStopsIff(b, n + 1, b[n], e);
  }

  // ----- truncated blobs

  function HeadLen(d: Dgram): nat
    requires Fits(d)
  {
    |Blob(d)| - |d.payload|
  }

  lemma BlobWithPayload(d: Dgram, more: Bytes)
    requires Fits(d)
    ensures var d' := d.(payload := more); Fits(d') && Blob(d') == Blob(d)[..HeadLen(d)] + more
  {
  }

  /** A truncated blob is accepted exactly when only payload is missing, and then as the same datagram
      with what is left of the payload: the head cannot be cut unnoticed. */
  lemma DecodeTruncated(d: Dgram, n: nat)
    requires Fits(d) && n <= |Blob(d)|
    ensures Decode(Blob(d)[..n]).Ok? <==> n >= HeadLen(d)
    ensures n >= HeadLen(d) ==> Decode(Blob(d)[..n]) == Ok(d.(payload := d.payload[..n - HeadLen(d)]))
  {
    var b := Blob(d)[..n];
    if n >= HeadLen(d) {
      var left := d.payload[..n - HeadLen(d)];
      BlobWithPayload(d, left);
      assert b == Blob(d)[..HeadLen(d)] + left;
      DecodeBlob(d.(payload := left));
    }
    if Decode(b).Ok? {
      var d' := Decode(b).value;
      BlobOfDecoded(b);
      SameHead(d, d', Blob(d)[n..]);
    }
  }

  /** A blob that continues another has its head. */
  lemma SameHead(d: Dgram, d': Dgram, more: Bytes)
    requires Fits(d) && Fits(d') && Blob(d) == Blob(d') + more
    ensures HeadLen(d) == HeadLen(d')
  {
    var whole := d'.(payload := d'.payload + more);
    BlobWithPayload(d', d'.payload + more);
    assert Blob(d') == Blob(d')[..HeadLen(d')] + d'.payload;
    assert Blob(whole) == Blob(d);
    DecodeBlob(whole);
    DecodeBlob(d);
  }
}
