/** A TCP stream as packets: what the byte stream means, independent of how it arrives. */
module PacketStream {

  type Byte = bv8

  /** sizeof HNetPacket, MAX_SIZE and INVALID_TYPE. */
  const HEADER := 4
  const MAX_SIZE := 32500
  const INVALID_TYPE := 0xFFFF

  /** A USHORT in the stream, low byte first. */
  function U16(s: seq<Byte>, i: nat): (n: nat)
    requires i + 2 <= |s|
    ensures n < 0x1_0000
  {
    s[i] as int + 256 * (s[i + 1] as int)
  }

  function SizeOf(s: seq<Byte>): nat
    requires HEADER <= |s|
  {
    U16(s, 0)
  }

  /** HNetPacket::Check. */
  predicate Check(s: seq<Byte>)
    requires HEADER <= |s|
  {
    !(U16(s, 2) == INVALID_TYPE || HEADER > SizeOf(s) || MAX_SIZE < SizeOf(s))
  }

  /** One whole packet: its header passes and gives its length. */
  predicate IsPacket(p: seq<Byte>) {
    HEADER <= |p| && Check(p) && SizeOf(p) == |p|
  }

  /** `ok` is false once a header that fails Check comes first. */
  datatype Parsed = Parsed(packets: seq<seq<Byte>>, rest: seq<Byte>, ok: bool)

  /** The stream cut at the sizes its headers give. */
  function Parse(s: seq<Byte>): (r: Parsed)
    ensures |r.rest| <= |s|
    decreases |s|
  {
    if |s| < HEADER then Parsed([], s, true)
    else if !Check(s) then Parsed([], s, false)
    else if SizeOf(s) > |s| then Parsed([], s, true)
    else
      var r := Parse(s[SizeOf(s)..]);
      r.(packets := [s[..SizeOf(s)]] + r.packets)
  }

  /** Too little for another packet. */
  predicate Stuck(s: seq<Byte>) {
    |s| < HEADER || (Check(s) && |s| < SizeOf(s))
  }

  function Concat<T>(parts: seq<seq<T>>): seq<T> {
    if parts == [] then [] else parts[0] + Concat(parts[1..])
  }

  lemma {:induction false} ConcatAppend<T>(a: seq<seq<T>>, b: seq<seq<T>>)
    ensures Concat(a + b) == Concat(a) + Concat(b)
  {
    if a == [] {
      assert a + b == b;
    } else {
      assert (a + b)[0] == a[0] && (a + b)[1..] == a[1..] + b;
      ConcatAppend(a[1..], b);
    }
  }

  lemma SizeOfPrefix(p: seq<Byte>, more: seq<Byte>)
    requires HEADER <= |p|
    ensures SizeOf(p + more) == SizeOf(p) && (Check(p + more) <==> Check(p))
  {
    assert (p + more)[0] == p[0] && (p + more)[1] == p[1] && (p + more)[2] == p[2] && (p + more)[3] == p[3];
  }

  /** A stream with a whole packet in front. */
  predicate Starts(s: seq<Byte>) {
    HEADER <= |s| && Check(s) && SizeOf(s) <= |s|
  }

  function Front(s: seq<Byte>): seq<Byte>
    requires Starts(s)
  {
    s[..SizeOf(s)]
  }

  function Back(s: seq<Byte>): seq<Byte>
    requires Starts(s)
  {
    s[SizeOf(s)..]
  }

  lemma FrontIsPacket(s: seq<Byte>)
    requires Starts(s)
    ensures IsPacket(Front(s)) && s == Front(s) + Back(s) && |Back(s)| < |s|
  {
    assert s == Front(s) + Back(s);
    SizeOfPrefix(Front(s), Back(s));
  }

  lemma ParseFront(s: seq<Byte>)
    requires Starts(s)
    ensures Parse(s) == Parse(Back(s)).(packets := [Front(s)] + Parse(Back(s)).packets)
  {
  }

  lemma ParseStops(s: seq<Byte>)
    requires !Starts(s)
    ensures Parse(s) == Parsed([], s, Stuck(s))
  {
  }

  /** Cutting loses nothing: the packets and the rest are the stream, every piece is a whole
      packet, and what is left over is too little for one unless its header is bad. */
  lemma {:induction false} ParseIsExact(s: seq<Byte>)
    ensures Concat(Parse(s).packets) + Parse(s).rest == s
    ensures forall k :: 0 <= k < |Parse(s).packets| ==> IsPacket(Parse(s).packets[k])
    ensures !Starts(Parse(s).rest) && (Parse(s).ok <==> Stuck(Parse(s).rest))
    decreases |s|
  {
    if Starts(s) {
      FrontIsPacket(s);
      ParseFront(s);
      ParseIsExact(Back(s));
      ConcatFirst(Front(s), Parse(Back(s)).packets);
      Assoc(Front(s), Concat(Parse(Back(s)).packets), Parse(s).rest);
    } else {
      ParseStops(s);
      assert [] + s == s;
    }
  }

  lemma ConcatFirst<T>(p: seq<T>, ps: seq<seq<T>>)
    ensures Concat([p] + ps) == p + Concat(ps)
  {
    assert ([p] + ps)[1..] == ps;
  }

  lemma Assoc<T>(a: seq<T>, b: seq<T>, c: seq<T>)
    ensures a + (b + c) == (a + b) + c
  {
  }

  /** A packet at the front comes off whole, whatever follows it. */
  lemma PacketFirst(p: seq<Byte>, more: seq<Byte>)
    requires IsPacket(p)
    ensures Starts(p + more) && Front(p + more) == p && Back(p + more) == more
    ensures Parse(p + more) == Parse(more).(packets := [p] + Parse(more).packets)
  {
    SizeOfPrefix(p, more);
    assert Front(p + more) == p && Back(p + more) == more;
    ParseFront(p + more);
  }

  /** More bytes continue where the cutting stopped, and change nothing once it has failed. */
  lemma {:induction false} ParseContinues(s: seq<Byte>, more: seq<Byte>)
    ensures Parse(s).ok ==> Parse(s + more) == Resumed(Parse(s), more)
    ensures !Parse(s).ok ==> Parse(s + more).packets == Parse(s).packets && !Parse(s + more).ok
    decreases |s|
  {
    if Starts(s) {
      FrontIsPacket(s);
      ParseFront(s);
      ParseContinues(Back(s), more);
      PacketFirst(Front(s), Back(s) + more);
      Assoc(Front(s), Back(s), more);
      Assoc([Front(s)], Parse(Back(s)).packets, Parse(Parse(s).rest + more).packets);
    } else {
      ParseStops(s);
      if !Stuck(s) {
        SizeOfPrefix(s, more);
        ParseStops(s + more);
      } else {
        assert [] + Parse(s + more).packets == Parse(s + more).packets;
      }
    }
  }

  function Resumed(r: Parsed, more: seq<Byte>): Parsed {
    var next := Parse(r.rest + more);
    Parsed(r.packets + next.packets, next.rest, next.ok)
  }

  /** Whole packets written one after the other are cut back into exactly those packets. */
  lemma {:induction false} ParseOfConcat(ps: seq<seq<Byte>>)
    requires forall k :: 0 <= k < |ps| ==> IsPacket(ps[k])
    ensures Parse(Concat(ps)) == Parsed(ps, [], true)
  {
    if ps != [] {
      ParseOfConcat(ps[1..]);
      PacketFirst(ps[0], Concat(ps[1..]));
    }
  }

  // ---- What an HNetPacket is in bytes ----

  /** A USHORT written low byte first. */
  function Short(n: int): (w: seq<Byte>)
    requires 0 <= n < 0x1_0000
    ensures |w| == 2
  {
    [(n % 256) as Byte, (n / 256) as Byte]
  }

  /** The bytes of an HNetPacket of a type and a body: its size and its type, both USHORT, and the
      body. */
  function Wire(kind: int, body: seq<Byte>): (w: seq<Byte>)
    requires 0 <= kind < 0x1_0000
    ensures |w| == 4 + |body|
  {
    Short((4 + |body|) % 0x1_0000) + Short(kind) + body
  }

  lemma ByteAgain(b: Byte)
    ensures (b as int) as Byte == b
  {
  }

  lemma ByteAfter(b: Byte)
    ensures b != 0xFF ==> (b + 1) as int == b as int + 1
  {
  }

  lemma {:induction false} SomeByte(n: nat) returns (b: Byte)
    requires n < 256
    ensures b as int == n
  {
    b := 0;
    if n > 0 {
      var before := SomeByte(n - 1);
      ByteAfter(before);
      b := before + 1;
    }
  }

  lemma {:induction false} ByteBack(n: nat)
    requires n < 256
    ensures (n as Byte) as int == n
  {
    var b := SomeByte(n);
    ByteAgain(b);
  }

  lemma ShortReads(n: int)
    requires 0 <= n < 0x1_0000
    ensures U16(Short(n), 0) == n
  {
    ByteBack(n % 256);
    ByteBack(n / 256);
  }

  lemma WireReads(kind: int, body: seq<Byte>)
    requires 0 <= kind < 0x1_0000
    ensures U16(Wire(kind, body), 0) == (4 + |body|) % 0x1_0000 && U16(Wire(kind, body), 2) == kind
  {
    ShortReads((4 + |body|) % 0x1_0000);
    ShortReads(kind);
  }

  /** Those bytes are a packet exactly for a type other than 65535 and a body of at most 32496 bytes;
      and any bytes are one exactly if the first two read as their number, from 4 to 32500, and the
      next two are not FF FF. */
  lemma IsPacketIff(p: seq<Byte>)
    ensures forall kind, body: seq<Byte> :: 0 <= kind < 0x1_0000 ==>
              (IsPacket(Wire(kind, body)) <==> kind != 0xFFFF && |body| <= 32496)
    ensures IsPacket(p) <==> && 4 <= |p| <= 32500
                             && p[0] as int + 256 * (p[1] as int) == |p| && !(p[2] == 0xFF && p[3] == 0xFF)
  {
    forall kind, body: seq<Byte> | 0 <= kind < 0x1_0000
      ensures IsPacket(Wire(kind, body)) <==> kind != 0xFFFF && |body| <= 32496
    {
      WireReads(kind, body);
    }
  }

  /** A stream that begins with such bytes gives that packet first, and goes on behind it. */
  lemma WireComesFirst(kind: int, body: seq<Byte>, more: seq<Byte>)
    requires 0 <= kind < 0xFFFF && |body| <= 32496
    ensures Parse(Wire(kind, body) + more)
            == Parsed([Wire(kind, body)] + Parse(more).packets, Parse(more).rest, Parse(more).ok)
  {
    WireReads(kind, body);
    PacketFirst(Wire(kind, body), more);
  }

  /** A stream is refused at once exactly when the type in its first header is FF FF, or the size
      there is below 4 or above 32500. */
  lemma RefusedIff(s: seq<Byte>)
    ensures Parse(s).packets == [] && !Parse(s).ok
            <==> && |s| >= 4
                 && var size := s[0] as int + 256 * (s[1] as int);
                    (s[2] == 0xFF && s[3] == 0xFF) || size < 4 || 32500 < size
  {
  }

  // ---- The default cipher ----

  function Flip(b: Byte): Byte { b ^ 0xEE }

  /** _Encrypt and _Decrypt: the body flipped, the header left alone. */
  function Cipher(p: seq<Byte>): (r: seq<Byte>)
    ensures |r| == |p|
    ensures forall k :: 0 <= k < |p| ==> r[k] == if k < HEADER then p[k] else Flip(p[k])
  {
    seq(|p|, k requires 0 <= k < |p| => if k < HEADER then p[k] else Flip(p[k]))
  }

  lemma FlipTwice(b: Byte)
    ensures Flip(Flip(b)) == b
  {
  }

  /** Encrypting is 0xEE on every byte of the body, keeps packets packets, and decrypting undoes it. */
  lemma CipherTwice(p: seq<Byte>)
    ensures forall k :: 0 <= k < |p| ==> Cipher(p)[k] == if k < 4 then p[k] else p[k] ^ 0xEE
    ensures Cipher(Cipher(p)) == p
    ensures IsPacket(p) ==> IsPacket(Cipher(p))
  {
    forall k | 0 <= k < |p| ensures Cipher(Cipher(p))[k] == p[k] { FlipTwice(p[k]); }
  }

  function CipherAll(ps: seq<seq<Byte>>): (r: seq<seq<Byte>>)
    ensures |r| == |ps| && forall k :: 0 <= k < |ps| ==> r[k] == Cipher(ps[k])
  {
    seq(|ps|, k requires 0 <= k < |ps| => Cipher(ps[k]))
  }

  lemma CipherAllAppend(a: seq<seq<Byte>>, b: seq<seq<Byte>>)
    ensures CipherAll(a + b) == CipherAll(a) + CipherAll(b)
  {
  }

  // ---- Arrival in chunks ----

  /** What has been delivered so far, what waits for more, and whether the stream is sound. */
  datatype Inbox = Inbox(messages: seq<seq<Byte>>, waiting: seq<Byte>, ok: bool)

  /** One completed receive: the chunk joins what was waiting. After a bad header the session
      is disconnected and nothing more is taken. */
  function Receive(b: Inbox, chunk: seq<Byte>): Inbox {
    if !b.ok then b
    else
      var r := Parse(b.waiting + chunk);
      Inbox(b.messages + CipherAll(r.packets), r.rest, r.ok)
  }

  function ReceiveAll(b: Inbox, chunks: seq<seq<Byte>>): Inbox
    decreases |chunks|
  {
    if chunks == [] then b else ReceiveAll(Receive(b, chunks[0]), chunks[1..])
  }

  const EMPTY := Inbox([], [], true)

  /** The inbox of a whole stream, as one receive would leave it. */
  function Whole(stream: seq<Byte>): Inbox {
    var r := Parse(stream);
    Inbox(CipherAll(r.packets), r.rest, r.ok)
  }

  /** The same messages, the same soundness, and while sound the same bytes waiting. */
  predicate SameDelivery(a: Inbox, b: Inbox) {
    a.messages == b.messages && a.ok == b.ok && (a.ok ==> a.waiting == b.waiting)
  }

  lemma ReceiveContinues(stream: seq<Byte>, b: Inbox, chunk: seq<Byte>)
    requires SameDelivery(b, Whole(stream))
    ensures SameDelivery(Receive(b, chunk), Whole(stream + chunk))
  {
    ParseContinues(stream, chunk);
    CipherAllAppend(Parse(stream).packets, Parse(Parse(stream).rest + chunk).packets);
  }

  lemma {:induction false} ReceiveAllContinues(stream: seq<Byte>, b: Inbox, chunks: seq<seq<Byte>>)
    requires SameDelivery(b, Whole(stream))
    ensures SameDelivery(ReceiveAll(b, chunks), Whole(stream + Concat(chunks)))
    decreases |chunks|
  {
    if chunks == [] {
      assert stream + [] == stream;
    } else {
      ReceiveContinues(stream, b, chunks[0]);
      ReceiveAllContinues(stream + chunks[0], Receive(b, chunks[0]), chunks[1..]);
      assert stream + (chunks[0] + Concat(chunks[1..])) == (stream + chunks[0]) + Concat(chunks[1..]);
    }
  }

  /** With room for everything, however the stream is split and joined, the same messages come out
      in the same order and the same bytes stay waiting. */
  lemma {:induction false} Rejoined(chunks: seq<seq<Byte>>)
    ensures SameDelivery(ReceiveAll(EMPTY, chunks), Whole(Concat(chunks)))
  {
    assert Whole([]) == EMPTY;
    ReceiveAllContinues([], EMPTY, chunks);
    assert [] + Concat(chunks) == Concat(chunks);
  }

  /** The packets sent, encrypted, written one behind the other and received with room for
      everything come out as sent, each once and in order, and nothing is left over. */
  lemma {:induction false} SentIsDelivered(sent: seq<seq<Byte>>, chunks: seq<seq<Byte>>)
    requires forall k :: 0 <= k < |sent| ==> IsPacket(sent[k])
    requires Concat(chunks) == Concat(CipherAll(sent))
    ensures SameDelivery(ReceiveAll(EMPTY, chunks), Inbox(sent, [], true))
  {
    Rejoined(chunks);
    var wire := CipherAll(sent);
    forall k | 0 <= k < |wire| ensures IsPacket(wire[k]) && Cipher(wire[k]) == sent[k] { CipherTwice(sent[k]); }
    ParseOfConcat(wire);
    assert CipherAll(wire) == sent;
  }

  lemma CipherAllTwice(ps: seq<seq<Byte>>)
    ensures CipherAll(CipherAll(ps)) == ps
  {
    forall k | 0 <= k < |ps| ensures Cipher(CipherAll(ps)[k]) == ps[k] { CipherTwice(ps[k]); }
  }

  lemma OneChunk(all: seq<Byte>)
    ensures Concat([all]) == all && ReceiveAll(EMPTY, [all]) == Whole(all)
  {
    var one := [all];
    assert one[1..] == [] && [] + all == all && all + [] == all;
    assert ReceiveAll(EMPTY, one) == Receive(EMPTY, all);
    assert [] + CipherAll(Parse(all).packets) == CipherAll(Parse(all).packets);
  }

  lemma {:induction false} ReceivedIsPrefix(sent: seq<seq<Byte>>, chunks: seq<seq<Byte>>, coming: seq<Byte>)
    requires forall k :: 0 <= k < |sent| ==> IsPacket(sent[k])
    requires Concat(chunks) + coming == Concat(CipherAll(sent))
    ensures var got := ReceiveAll(EMPTY, chunks);
            got.ok && got.messages <= sent
            && got.waiting + coming == Concat(CipherAll(sent[|got.messages|..]))
  {
    var got := ReceiveAll(EMPTY, chunks);
    Rejoined(chunks);
    var all := Concat(CipherAll(sent));
    OneChunk(all);
    SentIsDelivered(sent, [all]);
    ParseContinues(Concat(chunks), coming);
    var more := Parse(got.waiting + coming);
    CipherAllAppend(Parse(Concat(chunks)).packets, more.packets);
    assert sent == got.messages + CipherAll(more.packets);
    assert sent[|got.messages|..] == CipherAll(more.packets);
    ParseIsExact(got.waiting + coming);
    CipherAllTwice(more.packets);
    assert Concat(more.packets) + [] == Concat(more.packets);
  }

  // ---- Arrival in a buffer of MAX_SIZE bytes ----

  /** The receive buffer: run over, with nothing said about what follows, or holding an inbox. */
  datatype Buffer = Overrun | Holding(box: Inbox)

  /** A chunk lands behind what waits. */
  function Land(b: Buffer, chunk: seq<Byte>): Buffer {
    match b
    case Overrun => Overrun
    case Holding(box) =>
      if box.ok && |box.waiting| + |chunk| > MAX_SIZE then Overrun else Holding(Receive(box, chunk))
  }

  function LandAll(b: Buffer, chunks: seq<seq<Byte>>): Buffer
    decreases |chunks|
  {
    if chunks == [] then b else LandAll(Land(b, chunks[0]), chunks[1..])
  }

  /** After `stream` a chunk lies inside the buffer behind what is left of the stream. */
  predicate RoomFor(stream: seq<Byte>, chunk: seq<Byte>) {
    var r := Parse(stream);
    r.ok ==> |r.rest| + |chunk| <= MAX_SIZE
  }

  ghost predicate RoomyFrom(stream: seq<Byte>, chunks: seq<seq<Byte>>) {
    forall k :: 0 <= k < |chunks| ==> RoomFor(stream + Concat(chunks[..k]), chunks[k])
  }

  /** At each receive the chunk lies inside the buffer behind what is left of the stream so far. */
  ghost predicate Roomy(chunks: seq<seq<Byte>>) {
    forall k :: 0 <= k < |chunks| ==> RoomFor(Concat(chunks[..k]), chunks[k])
  }

  lemma RoomyIsFromStart(chunks: seq<seq<Byte>>)
    ensures Roomy(chunks) <==> RoomyFrom([], chunks)
  {
    forall k | 0 <= k < |chunks| ensures [] + Concat(chunks[..k]) == Concat(chunks[..k]) {}
  }

  lemma ConcatUpTo(stream: seq<Byte>, chunks: seq<seq<Byte>>, k: nat)
    requires k < |chunks|
    ensures stream + Concat(chunks[..k + 1]) == (stream + chunks[0]) + Concat(chunks[1..][..k])
  {
    assert chunks[..k + 1] == [chunks[0]] + chunks[1..][..k];
    ConcatFirst(chunks[0], chunks[1..][..k]);
    Assoc(stream, chunks[0], Concat(chunks[1..][..k]));
  }

  lemma RoomyStep(stream: seq<Byte>, chunks: seq<seq<Byte>>)
    requires chunks != []
    ensures RoomyFrom(stream, chunks)
            <==> RoomFor(stream, chunks[0]) && RoomyFrom(stream + chunks[0], chunks[1..])
  {
    assert stream + Concat(chunks[..0]) == stream;
    var rest := chunks[1..];
    forall k | 0 <= k < |rest|
      ensures RoomFor(stream + Concat(chunks[..k + 1]), chunks[k + 1])
              <==> RoomFor((stream + chunks[0]) + Concat(rest[..k]), rest[k])
    {
      ConcatUpTo(stream, chunks, k);
    }
    if RoomyFrom(stream, chunks) {
      assert RoomFor(stream + Concat(chunks[..0]), chunks[0]);
      forall k | 0 <= k < |rest| ensures RoomFor((stream + chunks[0]) + Concat(rest[..k]), rest[k]) {
        assert RoomFor(stream + Concat(chunks[..k + 1]), chunks[k + 1]);
      }
    }
    if RoomFor(stream, chunks[0]) && RoomyFrom(stream + chunks[0], rest) {
      forall k | 0 <= k < |chunks| ensures RoomFor(stream + Concat(chunks[..k]), chunks[k]) {
        if k > 0 { assert RoomFor((stream + chunks[0]) + Concat(rest[..k - 1]), rest[k - 1]); }
      }
    }
  }

  lemma {:induction false} OverrunStays(chunks: seq<seq<Byte>>)
    ensures LandAll(Overrun, chunks) == Overrun
    decreases |chunks|
  {
    if chunks != [] { OverrunStays(chunks[1..]); }
  }

  lemma {:induction false} LandAllContinues(stream: seq<Byte>, b: Inbox, chunks: seq<seq<Byte>>)
    requires SameDelivery(b, Whole(stream))
    ensures LandAll(Holding(b), chunks).Holding? <==> RoomyFrom(stream, chunks)
    ensures RoomyFrom(stream, chunks) ==> LandAll(Holding(b), chunks) == Holding(ReceiveAll(b, chunks))
    decreases |chunks|
  {
    if chunks != [] {
      RoomyStep(stream, chunks);
      if RoomFor(stream, chunks[0]) {
        ReceiveContinues(stream, b, chunks[0]);
        LandAllContinues(stream + chunks[0], Receive(b, chunks[0]), chunks[1..]);
      } else {
        OverrunStays(chunks[1..]);
      }
    }
  }

  lemma LandAllIff(chunks: seq<seq<Byte>>)
    ensures LandAll(Holding(EMPTY), chunks).Holding? <==> Roomy(chunks)
    ensures Roomy(chunks) ==> LandAll(Holding(EMPTY), chunks) == Holding(ReceiveAll(EMPTY, chunks))
  {
    assert Whole([]) == EMPTY;
    LandAllContinues([], EMPTY, chunks);
    RoomyIsFromStart(chunks);
  }

  /** However TCP splits and joins the stream, the buffer holds out exactly when at each receive
      the chunk lies inside it, and then the handler gets the same messages in the same order and
      the same bytes stay waiting. */
  lemma FragmentationIrrelevant(chunks: seq<seq<Byte>>)
    ensures var b := LandAll(Holding(EMPTY), chunks);
            && (b.Holding? <==> Roomy(chunks))
            && (b.Holding? ==> SameDelivery(b.box, Whole(Concat(chunks))))
  {
    LandAllIff(chunks);
    Rejoined(chunks);
  }

  /** While only a part of the stream has arrived, each chunk inside the buffer, the handler has a
      front part of what was sent, unaltered, and the bytes waiting and coming are the rest. */
  lemma DeliveredIsPrefix(sent: seq<seq<Byte>>, chunks: seq<seq<Byte>>, coming: seq<Byte>)
    requires forall k :: 0 <= k < |sent| ==> IsPacket(sent[k])
    requires Concat(chunks) + coming == Concat(CipherAll(sent))
    ensures var b := LandAll(Holding(EMPTY), chunks);
            && (b.Holding? <==> Roomy(chunks))
            && (b.Holding? ==>
                  && b.box.ok && b.box.messages <= sent
                  && b.box.waiting + coming == Concat(CipherAll(sent[|b.box.messages|..])))
  {
    LandAllIff(chunks);
    ReceivedIsPrefix(sent, chunks, coming);
  }
}
