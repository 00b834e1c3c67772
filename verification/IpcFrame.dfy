/** Length-prefixed framing over a byte stream that arrives in arbitrary chunks. */
module IpcFrame {
  import opened Octets

  const PREFIX_LEN: nat := 4
  const MAX_PAYLOAD_LEN: nat := 16 * 1024 * 1024

  /** The number that four bytes stand for, most significant first. */
  function BigEndian(b0: int, b1: int, b2: int, b3: int): int {
    0x100_0000 * b0 + 0x1_0000 * b1 + 0x100 * b2 + b3
  }

  /** `struct.pack("! I", n)` */
  function Pack(n: nat): (r: Bytes)
    requires n < 0x1_0000_0000
    ensures |r| == 4 && BigEndian(r[0], r[1], r[2], r[3]) == n
  {
    PackValue(n);
    [n / 0x100_0000, (n / 0x1_0000) % 0x100, (n / 0x100) % 0x100, n % 0x100]
  }

  lemma PackValue(n: nat)
    ensures BigEndian(n / 0x100_0000, (n / 0x1_0000) % 0x100, (n / 0x100) % 0x100, n % 0x100) == n
  {
    Requotient(n, 0x100);
    Requotient(n, 0x1_0000);
  }

  lemma Requotient(n: nat, d: nat)
    requires d == 0x100 || d == 0x1_0000
    ensures n / d == 0x100 * (n / (0x100 * d)) + (n / d) % 0x100
  {
    assert n / (0x100 * d) == n / d / 0x100;
  }

  /** `struct.unpack("! I", prefix)` */
  function Unpack(prefix: Bytes): nat
    requires |prefix| == PREFIX_LEN
  {
    var b0: int, b1: int, b2: int, b3: int := prefix[0], prefix[1], prefix[2], prefix[3];
    0x100_0000 * b0 + 0x1_0000 * b1 + 0x100 * b2 + b3
  }

  lemma UnpackPack(n: nat)
    requires n < 0x1_0000_0000
    ensures Unpack(Pack(n)) == n
  {
  }

  lemma PackUnpack(prefix: Bytes)
    requires |prefix| == PREFIX_LEN
    ensures Unpack(prefix) < 0x1_0000_0000 && Pack(Unpack(prefix)) == prefix
  {
    var n := Unpack(prefix);
    var b0: int, b1: int, b2: int, b3: int := prefix[0], prefix[1], prefix[2], prefix[3];
    assert n / 0x100_0000 == b0;
    assert n / 0x1_0000 == 0x100 * b0 + b1;
    assert n / 0x100 == 0x1_0000 * b0 + 0x100 * b1 + b2;
  }

  datatype FrameError = TooLong | CutInPrefix | CutInPayload

  datatype Packed = Frame(bytes: Bytes) | Refused

  /** `pack_frame` */
  function PackFrame(payload: Bytes): Packed {
    if |payload| > MAX_PAYLOAD_LEN then Refused else Frame(Pack(|payload|) + payload)
  }

  /** What one read of a frame can come to. */
  datatype Read = Payload(payload: Bytes) | Eof | Error(error: FrameError)

  // ----- the socket

  /** A stream socket whose peer has sent data and then closed: the bytes not yet received. */
  class StreamSocket {
    var data: Bytes

    constructor (data: Bytes)
      ensures this.data == data
    {
      this.data := data;
    }

    /** `sock_recv(count)`: some bytes, at most count and at least one unless the stream has ended. */
    method Recv(count: nat) returns (chunk: Bytes)
      requires count > 0
      modifies this
      ensures |chunk| <= count && old(data) == chunk + data
      ensures chunk == [] <==> old(data) == []
      ensures chunk == [] ==> data == []
    {
      if data == [] {
        return [];
      }
      var n :| 1 <= n <= count && n <= |data|;
      chunk := data[..n];
      data := data[n..];
    }
  }

  function Min(m: nat, n: nat): nat {
    if m <= n then m else n
  }

  /** `recv_exactly` */
  method RecvExactly(sock: StreamSocket, count: nat) returns (bytes: Bytes)
    modifies sock
    ensures bytes == old(sock.data)[..Min(count, |old(sock.data)|)]
    ensures sock.data == old(sock.data)[Min(count, |old(sock.data)|)..]
  {
    bytes := [];
    var remaining := count;
    while remaining > 0
      invariant remaining >= 0 && |bytes| + remaining == count && bytes + sock.data == old(sock.data)
    {
      ghost var left := sock.data;
      var chunk := sock.Recv(remaining);
      if chunk == [] {
        assert left == [] && bytes + left == bytes;
        break;
      }
      bytes := bytes + chunk;
      remaining := remaining - |chunk|;
    }
    assert |bytes| == Min(count, |old(sock.data)|);
  }

  /** `recv_frame_from_socket` */
  method RecvFrame(sock: StreamSocket) returns (r: Read)
    modifies sock
    ensures (r, sock.data) == ReadFrame(old(sock.data))
  {
    ghost var all := sock.data;
    var prefix := RecvExactly(sock, PREFIX_LEN);
    if |prefix| == 0 {
      return Eof;
    }
    if |prefix| < PREFIX_LEN {
      return Error(CutInPrefix);
    }
    var length := Unpack(prefix);
    if length > MAX_PAYLOAD_LEN {
      return Error(TooLong);
    }
    var payload := RecvExactly(sock, length);
    if |payload| < length {
      return Error(CutInPayload);
    }
    return Payload(payload);
  }

  /** One read, as a function of the bytes left: its outcome and what it leaves. */
  function ReadFrame(data: Bytes): (Read, Bytes) {
    if |data| == 0 then (Eof, [])
    else if |data| < PREFIX_LEN then (Error(CutInPrefix), [])
    else
      var length := Unpack(data[..PREFIX_LEN]);
      var rest := data[PREFIX_LEN..];
      if length > MAX_PAYLOAD_LEN then (Error(TooLong), rest)
      else if |rest| < length then (Error(CutInPayload), [])
      else (Payload(rest[..length]), rest[length..])
  }

  /** Reading until something other than a payload comes: the payloads, and what came. */
  function ReadAll(data: Bytes): (seq<Bytes>, Read)
    decreases |data|
  {
    var (r, rest) := ReadFrame(data);
    if r.Payload? then
      var (ps, last) := ReadAll(rest);
      ([r.payload] + ps, last)
    else ([], r)
  }

  /** The repeated reads themselves, whatever the chunks. */
  method RecvAll(sock: StreamSocket) returns (payloads: seq<Bytes>, last: Read)
    modifies sock
    ensures (payloads, last) == ReadAll(old(sock.data))
  {
    payloads := [];
    last := RecvFrame(sock);
    ReadOn([], old(sock.data));
    assert [] + ReadAll(old(sock.data)).0 == ReadAll(old(sock.data)).0;
    while last.Payload?
      invariant ReadAll(old(sock.data)) == AfterRead(payloads, last, sock.data)
      decreases |sock.data|, last.Payload?
    {
      ghost var before := sock.data;
      ghost var got := payloads + [last.payload];
      payloads := payloads + [last.payload];
      last := RecvFrame(sock);
      ReadOn(got, before);
    }
  }

  /** What reading comes to in all, given the payloads so far, the latest read and the bytes left. */
  function AfterRead(payloads: seq<Bytes>, last: Read, data: Bytes): (seq<Bytes>, Read) {
    if last.Payload? then (payloads + [last.payload] + ReadAll(data).0, ReadAll(data).1) else (payloads, last)
  }

  lemma ReadOn(got: seq<Bytes>, data: Bytes)
    ensures (got + ReadAll(data).0, ReadAll(data).1) == AfterRead(got, ReadFrame(data).0, ReadFrame(data).1)
  {
    var (r, rest) := ReadFrame(data);
    if r.Payload? {
      assert got + ([r.payload] + ReadAll(rest).0) == got + [r.payload] + ReadAll(rest).0;
    } else {
      assert got + [] == got;
    }
  }

  // ----- the bytes on the stream

  /** A payload is refused exactly above 16 MiB; a frame is four bytes with its length, most significant
      first, and the payload. */
  lemma FrameLayout(payload: Bytes)
    ensures PackFrame(payload) == Refused <==> |payload| > 16_777_216
    ensures |payload| <= 16_777_216 ==>
      var b := PackFrame(payload).bytes;
      |b| == 4 + |payload| && BigEndian(b[0], b[1], b[2], b[3]) == |payload| && b[4..] == payload
  {
  }

  /** A frame is read exactly when its length says at most 16 MiB and that many bytes follow; what is left
      starts after it. Nothing at all is the end of the stream, and everything else is an error. */
  lemma ReadLayout(data: Bytes)
    ensures var (r, rest) := ReadFrame(data);
      && (r == Eof <==> data == [])
      && (r == Error(CutInPrefix) <==> 0 < |data| < 4)
      && (|data| >= 4 ==> var length := BigEndian(data[0], data[1], data[2], data[3]);
            && (r == Error(TooLong) <==> length > 16_777_216)
            && (r == Error(CutInPayload) <==> length <= 16_777_216 && |data| < 4 + length)
            && (r.Payload? <==> length <= 16_777_216 && |data| >= 4 + length)
            && (r.Payload? ==> r.payload == data[4..4 + length] && rest == data[4 + length..]))
      && (!r.Payload? ==> rest == if r == Error(TooLong) then data[4..] else [])
  {
    if |data| >= 4 {
      var prefix := data[..4];
      assert Unpack(prefix) == BigEndian(data[0], data[1], data[2], data[3]);
    }
  }

  // ----- the round trip

  ghost predicate Sendable(payloads: seq<Bytes>) {
    forall i :: 0 <= i < |payloads| ==> |payloads[i]| <= MAX_PAYLOAD_LEN
  }

  function FrameOf(payload: Bytes): Bytes
    requires |payload| <= MAX_PAYLOAD_LEN
  {
    PackFrame(payload).bytes
  }

  /** The bytes a sender of the payloads puts on the stream. */
  function Stream(payloads: seq<Bytes>): Bytes
    requires Sendable(payloads)
  {
    if payloads == [] then [] else FrameOf(payloads[0]) + Stream(payloads[1..])
  }

  lemma ReadOneFrame(payload: Bytes, rest: Bytes)
    requires |payload| <= MAX_PAYLOAD_LEN
    ensures ReadFrame(FrameOf(payload) + rest) == (Payload(payload), rest)
  {
    var data := FrameOf(payload) + rest;
    UnpackPack(|payload|);
    assert data[..PREFIX_LEN] == Pack(|payload|);
    assert data[PREFIX_LEN..] == payload + rest;
    assert (payload + rest)[..|payload|] == payload && (payload + rest)[|payload|..] == rest;
  }

  lemma ReadAllCons(payload: Bytes, rest: Bytes)
    requires |payload| <= MAX_PAYLOAD_LEN
    ensures ReadAll(FrameOf(payload) + rest) == ([payload] + ReadAll(rest).0, ReadAll(rest).1)
  {
    ReadOneFrame(payload, rest);
  }

  /** A frame cut short reads as end of stream when nothing of it arrived, and as an error otherwise. */
  lemma ReadCutFrame(payload: Bytes, n: nat)
    requires |payload| <= MAX_PAYLOAD_LEN && n < |FrameOf(payload)|
    ensures var r := ReadFrame(FrameOf(payload)[..n]).0;
      (n == 0 ==> r == Eof) && (n > 0 ==> r == Error(CutInPrefix) || r == Error(CutInPayload))
  {
    UnpackPack(|payload|);
    if n >= PREFIX_LEN {
      assert FrameOf(payload)[..n][..PREFIX_LEN] == Pack(|payload|);
    }
  }

  /** How many of the payloads arrive whole within the first n bytes. */
  function Whole(payloads: seq<Bytes>, n: nat): nat
    requires Sendable(payloads)
  {
    if payloads == [] || n < |FrameOf(payloads[0])| then 0
    else 1 + Whole(payloads[1..], n - |FrameOf(payloads[0])|)
  }

  /** Reading data gives the payloads ps, and then end of stream if clean and a truncation error if not. */
  ghost predicate ReadsAs(data: Bytes, ps: seq<Bytes>, clean: bool) {
    var (payloads, last) := ReadAll(data);
    && payloads == ps && (last == Eof <==> clean)
    && (!clean ==> last == Error(CutInPrefix) || last == Error(CutInPayload))
  }

  lemma ReadsAsCons(payload: Bytes, rest: Bytes, ps: seq<Bytes>, clean: bool)
    requires |payload| <= MAX_PAYLOAD_LEN && ReadsAs(rest, ps, clean)
    ensures ReadsAs(FrameOf(payload) + rest, [payload] + ps, clean)
  {
    ReadAllCons(payload, rest);
  }

  /** Reading any truncation of a stream gives exactly the payloads that arrived whole, and then end of
      stream at a frame boundary and a truncation error anywhere else. */
  lemma {:induction false} ReadTruncated(payloads: seq<Bytes>, n: nat)
    requires Sendable(payloads) && n <= |Stream(payloads)|
    ensures Whole(payloads, n) <= |payloads|
    ensures var whole := payloads[..Whole(payloads, n)];
      ReadsAs(Stream(payloads)[..n], whole, n == |Stream(whole)|)
    decreases |payloads|
  {
    if payloads == [] {
    } else if n < |FrameOf(payloads[0])| {
      assert Stream(payloads)[..n] == FrameOf(payloads[0])[..n];
      ReadCutFrame(payloads[0], n);
    } else {
      var m := n - |FrameOf(payloads[0])|;
      var w := Whole(payloads[1..], m);
      ReadTruncated(payloads[1..], m);
      TruncateAfterFirst(payloads, n);
      FirstThenWhole(payloads, w);
      ReadsAsCons(payloads[0], Stream(payloads[1..])[..m], payloads[1..][..w], m == |Stream(payloads[1..][..w])|);
    }
  }

  lemma TruncateAfterFirst(payloads: seq<Bytes>, n: nat)
    requires Sendable(payloads) && payloads != [] && |FrameOf(payloads[0])| <= n <= |Stream(payloads)|
    ensures Stream(payloads)[..n] == FrameOf(payloads[0]) + Stream(payloads[1..])[..n - |FrameOf(payloads[0])|]
  {
  }

  lemma FirstThenWhole(payloads: seq<Bytes>, w: nat)
    requires Sendable(payloads) && payloads != [] && w <= |payloads[1..]|
    ensures payloads[..w + 1] == [payloads[0]] + payloads[1..][..w]
    ensures |Stream(payloads[..w + 1])| == |FrameOf(payloads[0])| + |Stream(payloads[1..][..w])|
  {
    assert payloads[..w + 1][1..] == payloads[1..][..w];
  }

  /** Everything sent is read back, empty payloads included, and then end of stream. */
  lemma {:induction false} ReadWhole(payloads: seq<Bytes>)
    requires Sendable(payloads)
    ensures ReadAll(Stream(payloads)) == (payloads, Eof)
  {
    if payloads == [] {
    } else {
      ReadWhole(payloads[1..]);
      ReadAllCons(payloads[0], Stream(payloads[1..]));
      assert [payloads[0]] + payloads[1..] == payloads;
    }
  }

  /** A payload read was a packed frame at the front of the bytes. */
  lemma FrameWasThere(data: Bytes)
    requires ReadFrame(data).0.Payload?
    ensures var (r, rest) := ReadFrame(data);
      |r.payload| <= MAX_PAYLOAD_LEN && data == FrameOf(r.payload) + rest
  {
    var (r, rest) := ReadFrame(data);
    PackUnpack(data[..PREFIX_LEN]);
    ThreeParts(data, |r.payload|);
  }

  lemma ThreeParts(data: Bytes, length: nat)
    requires PREFIX_LEN + length <= |data|
    ensures var tail := data[PREFIX_LEN..]; data == data[..PREFIX_LEN] + tail[..length] + tail[length..]
  {
  }

  lemma StreamCons(payload: Bytes, payloads: seq<Bytes>)
    requires |payload| <= MAX_PAYLOAD_LEN && Sendable(payloads)
    ensures Sendable([payload] + payloads) && Stream([payload] + payloads) == FrameOf(payload) + Stream(payloads)
  {
    assert ([payload] + payloads)[1..] == payloads;
  }

  /** Only the stream of the payloads read ends cleanly: reading is injective up to end of stream. */
  lemma {:induction false} CleanEndIsStream(data: Bytes)
    ensures ReadAll(data).1 == Eof ==> Sendable(ReadAll(data).0) && data == Stream(ReadAll(data).0)
    decreases |data|
  {
    var (r, rest) := ReadFrame(data);
    if r.Payload? && ReadAll(rest).1 == Eof {
      CleanEndIsStream(rest);
      FrameWasThere(data);
      StreamCons(r.payload, ReadAll(rest).0);
    }
  }
}
