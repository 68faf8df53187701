/** From a caller of Send to the peer's message handler. */
module Delivery {
  import opened PacketStream
  import opened SendQueue
  import opened SendOrder
  import opened RecvBuffer

  /** WsaSend: a packet on its way out, which several sessions may share. */
  class WsaSend {
    const buf: array<Byte>
    var encrypt: bool
    /** The packet as its author wrote it. */
    ghost const plain: seq<Byte>

    ghost predicate Valid()
      reads this, buf
    {
      HEADER <= buf.Length && buf[..] == if encrypt then Cipher(plain) else plain
    }

    constructor (packet: seq<Byte>)
      requires HEADER <= |packet|
      ensures Valid() && plain == packet && !encrypt && fresh(buf)
    {
      buf := new Byte[|packet|](i requires 0 <= i < |packet| => packet[i]);
      encrypt, plain := false, packet;
      new;
      assert buf[..] == packet;
    }

    method NotEncrypt() returns (first: bool)
      modifies this`encrypt
      ensures encrypt && first == !old(encrypt)
    {
      if encrypt { return false; }
      encrypt := true;
      first := true;
    }

    /** HNet::_Encrypt. However often a packet is sent, its body is flipped once. */
    method Encrypt()
      requires Valid()
      modifies this`encrypt, buf
      ensures Valid() && buf[..] == Cipher(plain)
      ensures buf.Length == |plain| && forall k :: 0 <= k < |plain| ==> buf[k] == if k < 4 then plain[k] else plain[k] ^ 0xEE
    {
      CipherTwice(plain);
      var first := NotEncrypt();
      if !first { return; }
      Decrypt(buf, HEADER, buf.Length - HEADER);
      assert buf[..] == Cipher(plain);
    }
  }

  /** `chunks` have arrived of all that was posted since the connection began at `s`, and `coming` is
      still on its way. */
  ghost predicate Carried(s: Sender, t: Sender, chunks: seq<seq<Byte>>, coming: seq<Byte>) {
    s.posts <= t.posts && Concat(chunks) + coming == Bytes(Concat(Since(s, t)))
  }

  lemma {:induction false} BytesPosted(s: Sender, run: seq<Op>)
    requires Begun(s) && Flowing(s) && Legal(s, run) && Within(run)
    ensures var t := After(s, run);
            && s.posts <= t.posts
            && Concat(Sent(run)) == Bytes(Concat(Since(s, t))) + Bytes(Concat(Unposted(t)))
            && (!t.pending ==> Bytes(Concat(Unposted(t))) == [])
  {
    PostedIsFrontOfSent(s, run);
    NoneLeft(s);
    var t := After(s, run);
    BytesAppend(Concat(Since(s, t)), Concat(Unposted(t)));
    ConcatAppend(Payloads(Concat(s.bufs)), Sent(run));
    assert [] + Concat(Sent(run)) == Concat(Sent(run));
  }

  /** Whatever the calls of Send from many threads, the completions, the gathering and the cutting
      up by TCP do, in a connection that began with no send under way and no bytes in the buffers: as
      long as each chunk lies inside the receive buffer, and exactly then, that buffer holds out, and
      at every moment the handler has been given a front part of the packets sent, each whole, once,
      in order and decrypted; and all of them once nothing is pending and nothing on its way. */
  lemma EndToEnd(s: Sender, run: seq<Op>, sent: seq<seq<Byte>>, chunks: seq<seq<Byte>>, coming: seq<Byte>)
    requires Begun(s) && Flowing(s) && Legal(s, run) && Within(run) && Sent(run) == CipherAll(sent)
    requires forall k :: 0 <= k < |sent| ==> IsPacket(sent[k])
    requires Carried(s, After(s, run), chunks, coming)
    ensures var b := LandAll(Holding(EMPTY), chunks);
            && (b.Holding? <==> Roomy(chunks))
            && (b.Holding? ==> b.box.ok && b.box.messages <= sent)
            && (b.Holding? && !After(s, run).pending && coming == [] ==>
                  b.box.messages == sent && b.box.waiting == [])
  {
    BytesPosted(s, run);
    var t := After(s, run);
    var queued := Bytes(Concat(Unposted(t)));
    Assoc(Concat(chunks), coming, queued);
    DeliveredIsPrefix(sent, chunks, coming + queued);
    if !t.pending && coming == [] {
      assert Concat(chunks) + [] == Concat(chunks);
      LandAllIff(chunks);
      SentIsDelivered(sent, chunks);
    }
  }

  /** The same for the buffer itself: a worker thread that takes the chunks out of the buffer, each
      inside it, has given the handler a front part of the packets sent, and has left what lies
      behind the buffer alone. */
  method WorkerEndToEnd(io: HNetIoRecv, wsaBuf: WsaBuf, ghost s: Sender, ghost run: seq<Op>,
                        ghost sent: seq<seq<Byte>>, chunks: seq<seq<Byte>>, ghost coming: seq<Byte>)
    returns (ok: bool)
    requires io.Valid() && io.Box() == EMPTY && Roomy(chunks)
    requires forall k :: 0 <= k < |chunks| ==> chunks[k] != [] && MAX_SIZE + |chunks[k]| <= io.buf.Length
    requires Begun(s) && Flowing(s) && Legal(s, run) && Within(run) && Sent(run) == CipherAll(sent)
    requires forall k :: 0 <= k < |sent| ==> IsPacket(sent[k])
    requires Carried(s, After(s, run), chunks, coming)
    modifies io`begin, io`end, io`messages, io.buf, wsaBuf
    ensures ok && io.messages <= sent && io.buf[MAX_SIZE..] == old(io.buf[MAX_SIZE..])
    ensures !After(s, run).pending && coming == [] ==> io.messages == sent
  {
    EndToEnd(s, run, sent, chunks, coming);
    LandAllIff(chunks);
    ok := Worker(io, wsaBuf, chunks);
  }
}
