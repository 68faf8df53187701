/** HNetIoRecv: the fixed buffer a TCP stream is received into and cut into packets in place. */
module RecvBuffer {
  import opened Wrappers
  import opened PacketStream

  /** The thread-local WSABUF a receive is posted with: where the bytes go and how many may come. */
  class WsaBuf {
    var pos: nat
    var len: nat
  }

  /** _Decrypt on the body of a packet lying in the buffer. */
  method Decrypt(buf: array<Byte>, body: nat, lenth: nat)
    requires body + lenth <= buf.Length
    modifies buf
    ensures forall k :: 0 <= k < buf.Length ==>
              buf[k] == if body <= k < body + lenth then old(buf[k]) ^ 0xEE else old(buf[k])
  {
    for i := 0 to lenth
      invariant forall k :: 0 <= k < buf.Length ==>
                  buf[k] == if body <= k < body + i then Flip(old(buf[k])) else old(buf[k])
    {
      buf[body + i] := Flip(buf[body + i]);
    }
  }

  class HNetIoRecv {
    /** The memory from the start of _buf on; the first MAX_SIZE bytes are the buffer's own. */
    const buf: array<Byte>
    var begin: nat
    var end: nat
    /** What the message handler has been given. */
    var messages: seq<seq<Byte>>

    /** Between receives what waits is never a whole packet. */
    ghost predicate Valid()
      reads this, buf
    {
      MAX_SIZE <= buf.Length && begin <= end <= buf.Length && Stuck(buf[begin..end])
    }

    ghost function Waiting(): seq<Byte>
      reads this, buf
      requires begin <= end <= buf.Length
    {
      buf[begin..end]
    }

    ghost function Box(): Inbox
      reads this, buf
      requires begin <= end <= buf.Length
    {
      Inbox(messages, Waiting(), true)
    }

    /** Create and Initialize, with `behind` bytes of memory behind the buffer. */
    constructor (behind: nat)
      ensures Valid() && fresh(buf) && buf.Length == MAX_SIZE + behind && Box() == EMPTY && begin == 0
    {
      buf := new Byte[MAX_SIZE + behind];
      begin, end, messages := 0, 0, [];
    }

    /** Readies the buffer for the next receive. Whatever waits is kept, and there is room behind
        it. The window posted lies inside the buffer, or is not empty, exactly when the length was
        set or the one left on this thread happens to do. */
    method PrepareBuffer(wsaBuf: WsaBuf)
      requires Valid()
      modifies this`begin, this`end, buf, wsaBuf
      ensures Valid() && Box() == old(Box())
      ensures begin == 0 && wsaBuf.pos == end < MAX_SIZE
      ensures forall k :: MAX_SIZE <= k < buf.Length ==> buf[k] == old(buf[k])
      ensures Cursor(|Waiting()|, begin, wsaBuf.len) == Prepared(Cursor(|old(Waiting())|, old(begin), old(wsaBuf.len)))
      ensures wsaBuf.pos + wsaBuf.len <= MAX_SIZE
              <==> old(begin) > 0 || old(begin) == old(end) || old(wsaBuf.len) <= MAX_SIZE - old(end)
      ensures wsaBuf.len > 0 <==> old(begin) > 0 || old(begin) == old(end) || old(wsaBuf.len) > 0
    {
      StuckIsShort(Waiting());
      if begin == end {
        begin, end := 0, 0;
        wsaBuf.len := MAX_SIZE;
      } else if begin != 0 {
        end := end - begin;
        forall k | 0 <= k < end { buf[k] := buf[begin + k]; }
        assert buf[..end] == old(Waiting());
        begin := 0;
        wsaBuf.len := MAX_SIZE - end;
      }
      wsaBuf.pos := end;
    }

    /** _OnMessage for the packet at the front of what is unread, which is `cur`. */
    method OnMessage(n: nat, ghost cur: seq<Byte>)
      requires Holds(buf, begin, cur) && Starts(cur) && n == SizeOf(cur)
      modifies this`messages, buf
      ensures messages == old(messages) + [Cipher(Front(cur))]
      ensures Holds(buf, begin + n, Back(cur))
      ensures forall k :: begin + n <= k < buf.Length ==> buf[k] == old(buf[k])
    {
      Decrypt(buf, begin + HEADER, n - HEADER);
      assert buf[begin..begin + n] == Cipher(Front(cur));
      messages := messages + [buf[begin..begin + n]];
    }

    /** Check and Size of the packet at the front of what is unread, which is `cur`. */
    method Header(ghost cur: seq<Byte>, ghost held: seq<Byte>) returns (good: bool, size: nat)
      requires HEADER <= |cur| && Holds(buf, begin, cur) && held <= cur && Stuck(held)
      ensures good == Check(cur) && size == SizeOf(cur)
      ensures good && size <= |cur| ==> Starts(cur) && |held| < size
    {
      var header := buf[begin..begin + HEADER];
      good, size := Check(header), SizeOf(header);
      assert cur == header + cur[HEADER..];
      SizeOfPrefix(header, cur[HEADER..]);
      if Starts(cur) { LaterIsLonger(held, cur); }
    }

    /** Between two turns of the loop of Completed, `left` bytes beyond `end` are unread. */
    ghost predicate Cutting(g: Progress, left: nat)
      reads this, buf
    {
      && g.was.ok && begin <= end && end - begin + left == |g.cur|
      && g.held <= g.cur && Stuck(g.held) && |g.held| == end - begin
      && Holds(buf, begin, g.cur)
      && Reading(g.was, g.chunk, g.done, g.cur, messages, begin - g.from)
    }

    /** Its outcome: what waits is all that is unread. */
    ghost predicate Cut(g: Progress, ok: bool)
      reads this, buf
    {
      && begin <= end <= buf.Length
      && Delivers(g.was, g.chunk, Inbox(messages, Waiting(), ok), begin - g.from)
      && (ok ==> Stuck(Waiting()))
    }

    /** All that is unread waits. */
    ghost method Stop(g: Progress)
      requires Holds(buf, begin, g.cur) && end == begin + |g.cur| && Stuck(g.cur) && g.was.ok
      requires Reading(g.was, g.chunk, g.done, g.cur, messages, begin - g.from)
      ensures Cut(g, true)
    {
      HoldsIs(buf, begin, g.cur);
      AllWaits(g, Waiting(), messages, begin - g.from);
    }

    /** One turn: either the loop is left with the verdict `ok`, or a packet has been taken. */
    method Turn(left: nat, incomplete: nat, ghost g: Progress)
      returns (stop: bool, ok: bool, left': nat, incomplete': nat, ghost g': Progress)
      requires left > 0 && Cutting(g, left) && incomplete == end - begin + left
      modifies this`begin, this`end, this`messages, buf
      ensures g'.was == g.was && g'.chunk == g.chunk && g'.from == g.from
      ensures forall k :: old(end) + left <= k < buf.Length ==> buf[k] == old(buf[k])
      ensures stop ==> Cut(g', ok)
      ensures !stop ==> Cutting(g', left') && left' < left && incomplete' == end - begin + left'
                        && end + left' == old(end) + left
    {
      left', incomplete', g' := left, incomplete, g;
      if incomplete < HEADER {
        end := end + left;
        Stop(g);
        return true, true, left', incomplete', g';
      }
      var good, size := Header(g.cur, g.held);
      if !good {
        ReadingEnds(g.was, g.chunk, g.done, g.cur, messages, begin - g.from);
        return true, false, left', incomplete', g';
      }
      if size > incomplete {
        end := end + left;
        Stop(g);
        return true, true, left', incomplete', g';
      }
      ReadingMore(g.was, g.chunk, g.done, g.cur, messages, begin - g.from);
      OnMessage(size, g.cur);
      g' := g.(done := g.done + [Front(g.cur)], cur := Back(g.cur), held := []);
      left' := left - (size - (end - begin));
      incomplete' := incomplete - size;
      begin := begin + size;
      end := begin;
      stop, ok := false, true;
    }

    /** The kernel has put `bytes` bytes behind what waits. Every packet now whole is delivered,
        and false is answered exactly when a bad header comes first. Nothing behind those bytes is
        touched. */
    method Completed(bytes: nat) returns (ok: bool)
      requires Valid() && end + bytes <= buf.Length
      modifies this`begin, this`end, this`messages, buf
      ensures begin <= end <= buf.Length && (ok ==> Valid())
      ensures SameDelivery(Inbox(messages, Waiting(), ok), Receive(old(Box()), old(buf[end..end + bytes])))
      ensures begin == old(begin) + |Concat(Parse(old(Waiting()) + old(buf[end..end + bytes])).packets)|
      ensures forall k :: old(end) + bytes <= k < buf.Length ==> buf[k] == old(buf[k])
    {
      ghost var g;
      ok, g := CutAll(bytes);
      assert Shown(0);
    }

    /** The loop of Completed. */
    method CutAll(bytes: nat) returns (ok: bool, ghost g: Progress)
      requires Valid() && end + bytes <= buf.Length
      modifies this`begin, this`end, this`messages, buf
      ensures g.was == old(Box()) && g.chunk == old(buf[end..end + bytes]) && g.from == old(begin)
      ensures Cut(g, ok)
      ensures forall k :: old(end) + bytes <= k < buf.Length ==> buf[k] == old(buf[k])
    {
      ghost var was, chunk := Box(), buf[end..end + bytes];
      ReadingBegins(was, chunk);
      g := Progress(was, chunk, begin, [], was.waiting + chunk, was.waiting);
      var left, incomplete := bytes, (end - begin) + bytes;
      while left > 0
        invariant Cutting(g, left) && incomplete == end - begin + left
        invariant g.was == was && g.chunk == chunk && g.from == old(begin)
        invariant end + left == old(end) + bytes
        invariant forall k :: old(end) + bytes <= k < buf.Length ==> buf[k] == old(buf[k])
      {
        var stop;
        stop, ok, left, incomplete, g := Turn(left, incomplete, g);
        if stop { return ok, g; }
      }
      assert g.cur == g.held;
      Stop(g);
      ok := true;
    }

    /** A receive has completed with `bytes` bytes behind what waits. The next one is posted
        unless the peer is gone, the stream is bad, or the session is already disconnecting. */
    method Recved(bytes: nat, disconnected: bool, wsaBuf: WsaBuf) returns (posted: bool)
      requires Valid() && end + bytes <= buf.Length
      modifies this`begin, this`end, this`messages, buf, wsaBuf
      ensures begin <= end <= buf.Length
      ensures var b := Receive(old(Box()), old(buf[end..end + bytes]));
              && messages == b.messages
              && (b.ok ==> Valid() && Waiting() == b.waiting)
              && (posted <==> bytes > 0 && b.ok && !disconnected)
      ensures posted ==> begin == 0 && wsaBuf.pos == end < MAX_SIZE
      ensures old(end) + bytes <= MAX_SIZE ==> forall k :: MAX_SIZE <= k < buf.Length ==> buf[k] == old(buf[k])
    {
      if bytes == 0 {
        NothingCame(Box());
        return false;
      }
      var ok := Completed(bytes);
      if !ok || disconnected { return false; }
      PrepareBuffer(wsaBuf);
      posted := true;
    }
  }

  lemma NothingCame(was: Inbox)
    requires was.ok && Stuck(was.waiting)
    ensures Receive(was, []) == was
  {
    assert was.waiting + [] == was.waiting && CipherAll([]) == [];
    ParseStops(was.waiting);
  }

  lemma {:induction false} ReceiveAllMore(b: Inbox, chunks: seq<seq<Byte>>, k: nat)
    requires k < |chunks|
    ensures ReceiveAll(b, chunks[..k + 1]) == Receive(ReceiveAll(b, chunks[..k]), chunks[k])
    decreases k
  {
    var upTo := chunks[..k + 1];
    if k == 0 {
      assert upTo == [chunks[0]] && upTo[1..] == [] && chunks[..0] == [];
    } else {
      ReceiveAllMore(Receive(b, chunks[0]), chunks[1..], k - 1);
      assert upTo[0] == chunks[0] && upTo[1..] == chunks[1..][..k];
      assert chunks[..k][0] == chunks[0] && chunks[..k][1..] == chunks[1..][..k - 1];
    }
  }

  lemma {:induction false} ReceiveAllFailed(b: Inbox, chunks: seq<seq<Byte>>)
    requires !b.ok
    ensures ReceiveAll(b, chunks) == b
    decreases |chunks|
  {
    if chunks != [] { ReceiveAllFailed(b, chunks[1..]); }
  }

  lemma {:induction false} ReceiveAllSplit(b: Inbox, chunks: seq<seq<Byte>>, k: nat)
    requires k <= |chunks|
    ensures ReceiveAll(b, chunks) == ReceiveAll(ReceiveAll(b, chunks[..k]), chunks[k..])
    decreases k
  {
    if k == 0 {
      assert chunks[..0] == [] && chunks[0..] == chunks;
    } else {
      ReceiveAllSplit(Receive(b, chunks[0]), chunks[1..], k - 1);
      assert chunks[..k][0] == chunks[0] && chunks[..k][1..] == chunks[1..][..k - 1];
      assert chunks[1..][k - 1..] == chunks[k..];
    }
  }

  /** The kernel writes a chunk at the posted place. */
  method Arrive(io: HNetIoRecv, chunk: seq<Byte>, at: nat)
    requires at + |chunk| <= io.buf.Length && io.begin <= io.end <= at
    modifies io.buf
    ensures io.buf[at..at + |chunk|] == chunk && io.Waiting() == old(io.Waiting())
    ensures forall k :: at + |chunk| <= k < io.buf.Length ==> io.buf[k] == old(io.buf[k])
  {
    forall k | 0 <= k < |chunk| { io.buf[at + k] := chunk[k]; }
    assert io.buf[at..at + |chunk|] == chunk;
    assert io.Waiting() == old(io.Waiting());
  }

  /** A receive is posted and its bytes go behind what waits. */
  ghost predicate Ready(io: HNetIoRecv, wsaBuf: WsaBuf)
    reads io, io.buf, wsaBuf
  {
    io.Valid() && io.begin == 0 && wsaBuf.pos == io.end < MAX_SIZE
  }

  /** One receive of a worker thread: the bytes arrive, and the completion is handled. */
  method ArriveAndHandle(io: HNetIoRecv, wsaBuf: WsaBuf, chunk: seq<Byte>) returns (ok: bool)
    requires Ready(io, wsaBuf) && chunk != [] && MAX_SIZE + |chunk| <= io.buf.Length
    modifies io`begin, io`end, io`messages, io.buf, wsaBuf
    ensures io.begin <= io.end <= io.buf.Length && (ok ==> Ready(io, wsaBuf))
    ensures SameDelivery(Inbox(io.messages, io.Waiting(), ok), Receive(old(io.Box()), chunk))
    ensures |old(io.Waiting())| + |chunk| <= MAX_SIZE ==> io.buf[MAX_SIZE..] == old(io.buf[MAX_SIZE..])
  {
    ghost var b := io.Box();
    Arrive(io, chunk, wsaBuf.pos);
    assert io.Box() == b;
    ok := io.Recved(|chunk|, false, wsaBuf);
  }

  /** A worker thread through the receives of one session, each completed with a chunk of any size:
      it leaves the messages and the bytes waiting that ReceiveAll gives, and while each chunk lies
      inside the buffer nothing behind the buffer is touched. */
  method Worker(io: HNetIoRecv, wsaBuf: WsaBuf, chunks: seq<seq<Byte>>) returns (ok: bool)
    requires io.Valid() && io.Box() == EMPTY
    requires forall k :: 0 <= k < |chunks| ==> chunks[k] != [] && MAX_SIZE + |chunks[k]| <= io.buf.Length
    modifies io`begin, io`end, io`messages, io.buf, wsaBuf
    ensures io.begin <= io.end <= io.buf.Length
    ensures SameDelivery(Inbox(io.messages, io.Waiting(), ok), ReceiveAll(EMPTY, chunks))
    ensures Roomy(chunks) ==> io.buf[MAX_SIZE..] == old(io.buf[MAX_SIZE..])
  {
    io.PrepareBuffer(wsaBuf);
    ok := true;
    var k := 0;
    while ok && k < |chunks|
      invariant 0 <= k <= |chunks| && io.begin <= io.end <= io.buf.Length
      invariant SameDelivery(Inbox(io.messages, io.Waiting(), ok), ReceiveAll(EMPTY, chunks[..k]))
      invariant ok ==> Ready(io, wsaBuf)
      invariant Roomy(chunks) ==> io.buf[MAX_SIZE..] == old(io.buf[MAX_SIZE..])
      decreases |chunks| - k
    {
      RoomNow(chunks, k);
      ReceiveAllMore(EMPTY, chunks, k);
      ok := ArriveAndHandle(io, wsaBuf, chunks[k]);
      k := k + 1;
    }
    AllReceived(chunks, k);
  }

  lemma RoomNow(chunks: seq<seq<Byte>>, k: nat)
    requires k < |chunks|
    ensures var b := ReceiveAll(EMPTY, chunks[..k]);
            Roomy(chunks) && b.ok ==> |b.waiting| + |chunks[k]| <= MAX_SIZE
  {
    Rejoined(chunks[..k]);
    assert Roomy(chunks) ==> RoomFor(Concat(chunks[..k]), chunks[k]);
  }

  lemma AllReceived(chunks: seq<seq<Byte>>, k: nat)
    requires k <= |chunks|
    ensures var b := ReceiveAll(EMPTY, chunks[..k]);
            !b.ok || k == |chunks| ==> ReceiveAll(EMPTY, chunks) == b
  {
    var b := ReceiveAll(EMPTY, chunks[..k]);
    ReceiveAllSplit(EMPTY, chunks, k);
    if !b.ok {
      ReceiveAllFailed(b, chunks[k..]);
    } else if k == |chunks| {
      assert chunks[k..] == [];
    }
  }

  /** The bytes `s` lie in the buffer from `at` on. */
  ghost predicate Holds(buf: array<Byte>, at: nat, s: seq<Byte>)
    reads buf
  {
    at + |s| <= buf.Length && forall k :: 0 <= k < |s| ==> s[k] == buf[at + k]
  }

  lemma HoldsIs(buf: array<Byte>, at: nat, s: seq<Byte>)
    requires Holds(buf, at, s)
    ensures buf[at..at + |s|] == s
  {
  }

  lemma AllWaits(g: Progress, waiting: seq<Byte>, messages: seq<seq<Byte>>, moved: int)
    requires waiting == g.cur && Stuck(g.cur) && g.was.ok
    requires Reading(g.was, g.chunk, g.done, g.cur, messages, moved)
    ensures Delivers(g.was, g.chunk, Inbox(messages, waiting, true), moved) && Stuck(waiting)
  {
    ReadingEnds(g.was, g.chunk, g.done, g.cur, messages, moved);
  }

  /** A packet is longer than the part of it that was waiting. */
  lemma LaterIsLonger(waiting: seq<Byte>, cur: seq<Byte>)
    requires waiting <= cur && Stuck(waiting) && Starts(cur)
    ensures |waiting| < SizeOf(cur)
  {
    if HEADER <= |waiting| {
      assert cur == waiting + cur[|waiting|..];
      SizeOfPrefix(waiting, cur[|waiting|..]);
    }
  }

  /** Where Completed stands: what it began with, where what waited began, the packets taken, what
      is unread, and the part of that which was waiting. */
  datatype Progress = Progress(was: Inbox, chunk: seq<Byte>, from: nat, done: seq<seq<Byte>>,
                               cur: seq<Byte>, held: seq<Byte>)

  /** In the middle of Completed: `done` has been delivered, `cur` is unread, and `moved` bytes
      lie between. */
  ghost predicate Reading(was: Inbox, chunk: seq<Byte>, done: seq<seq<Byte>>, cur: seq<Byte>,
                          messages: seq<seq<Byte>>, moved: int) {
    forall u :: Shown(u) ==>
      && Parse(was.waiting + chunk) == Resumed(Parsed(done, cur, true), [])
      && messages == was.messages + CipherAll(done)
      && moved == |Concat(done)|
  }

  /** What one receive does: the messages, the bytes left waiting and the verdict are those of
      Receive, and the front of what waits has moved past the packets taken. */
  ghost predicate Delivers(was: Inbox, chunk: seq<Byte>, now: Inbox, moved: int) {
    forall u :: Shown(u) ==>
      && SameDelivery(now, Receive(was, chunk))
      && moved == |Concat(Parse(was.waiting + chunk).packets)|
  }

  lemma ReadingBegins(was: Inbox, chunk: seq<Byte>)
    ensures Reading(was, chunk, [], was.waiting + chunk, was.messages, 0)
  {
    assert Shown(0);
    var all := was.waiting + chunk;
    assert all + [] == all && [] + Parse(all).packets == Parse(all).packets;
    assert CipherAll([]) == [] && was.messages + [] == was.messages;
  }

  /** One more whole packet moves from what is unread to what is delivered. */
  lemma ReadingMore(was: Inbox, chunk: seq<Byte>, done: seq<seq<Byte>>, cur: seq<Byte>,
                    messages: seq<seq<Byte>>, moved: int)
    requires Reading(was, chunk, done, cur, messages, moved) && Starts(cur)
    ensures Reading(was, chunk, done + [Front(cur)], Back(cur), messages + [Cipher(Front(cur))], moved + SizeOf(cur))
  {
    assert Shown(0);
    assert cur + [] == cur && Back(cur) + [] == Back(cur);
    ParseFront(cur);
    Assoc(done, [Front(cur)], Parse(Back(cur)).packets);
    ConcatAppend(done, [Front(cur)]);
    assert Concat([Front(cur)]) == Front(cur) + Concat([]);
    CipherAllAppend(done, [Front(cur)]);
    assert CipherAll([Front(cur)]) == [Cipher(Front(cur))];
    Assoc(was.messages, CipherAll(done), [Cipher(Front(cur))]);
  }

  lemma ReadingEnds(was: Inbox, chunk: seq<Byte>, done: seq<seq<Byte>>, cur: seq<Byte>,
                    messages: seq<seq<Byte>>, moved: int)
    requires Reading(was, chunk, done, cur, messages, moved) && !Starts(cur) && was.ok
    ensures Delivers(was, chunk, Inbox(messages, cur, Stuck(cur)), moved)
  {
    assert Shown(0);
    assert cur + [] == cur && done + [] == done;
    ParseStops(cur);
  }

  // ---- Whether the posted window stays inside the buffer ----

  /** How much waits, where it begins, and the length last posted on this thread. */
  datatype Cursor = Cursor(waiting: nat, begin: nat, len: nat)

  /** With something waiting at the very front of the buffer, the length is left as it was. */
  function Prepared(c: Cursor): Cursor {
    if c.waiting == 0 then Cursor(0, 0, MAX_SIZE)
    else if c.begin > 0 then Cursor(c.waiting, 0, if c.waiting <= MAX_SIZE then MAX_SIZE - c.waiting else 0)
    else c
  }

  /** At every receive of a run whatever may arrive, up to the length posted, lies in the buffer. */
  ghost predicate WindowsFit(waiting: seq<Byte>, begin: nat, len: nat, chunks: seq<seq<Byte>>)
    decreases |chunks|
  {
    var c := Prepared(Cursor(|waiting|, begin, len));
    && (forall next: seq<Byte> :: |next| <= c.len ==> c.waiting + |next| <= MAX_SIZE)
    && (chunks != [] ==>
          var r := Parse(waiting + chunks[0]);
          r.ok ==> WindowsFit(r.rest, |Concat(r.packets)|, c.len, chunks[1..]))
  }

  lemma EveryNextIff(c: Cursor)
    ensures (forall next: seq<Byte> :: |next| <= c.len ==> c.waiting + |next| <= MAX_SIZE)
            <==> c.waiting + c.len <= MAX_SIZE
  {
    var most: seq<Byte> := seq(c.len, _ => 0);
    assert |most| == c.len;
  }

  /** Every chunk is at most as long as the length posted for it. */
  predicate AsPosted(waiting: seq<Byte>, begin: nat, len: nat, chunks: seq<seq<Byte>>)
    decreases |chunks|
  {
    chunks != [] ==>
      var c := Prepared(Cursor(|waiting|, begin, len));
      var r := Parse(waiting + chunks[0]);
      && |chunks[0]| <= c.len
      && (r.ok ==> AsPosted(r.rest, |Concat(r.packets)|, c.len, chunks[1..]))
  }

  /** Every receive brings at least one packet to its end. */
  predicate EachCompletes(waiting: seq<Byte>, chunks: seq<seq<Byte>>)
    decreases |chunks|
  {
    chunks != [] ==>
      var r := Parse(waiting + chunks[0]);
      r.ok ==> r.packets != [] && EachCompletes(r.rest, chunks[1..])
  }

  lemma StuckIsShort(s: seq<Byte>)
    requires Stuck(s)
    ensures |s| < MAX_SIZE
  {
  }

  lemma PacketsMove(s: seq<Byte>)
    ensures Parse(s).packets != [] ==> |Concat(Parse(s).packets)| > 0
    ensures Parse(s).packets == [] ==> Parse(s).rest == s
  {
    ParseIsExact(s);
  }

  /** For one session whose receives all complete on one thread, from a fresh buffer or from one
      just cut, whatever arrives lies in the buffer exactly when every receive completes a packet:
      after a receive that does not, the old length is posted behind the longer residue. */
  lemma {:induction false} WindowsFitIff(waiting: seq<Byte>, begin: nat, len: nat, chunks: seq<seq<Byte>>)
    requires Stuck(waiting) && (begin > 0 || waiting == [])
    requires forall k :: 0 <= k < |chunks| ==> chunks[k] != []
    ensures WindowsFit(waiting, begin, len, chunks) <==> EachCompletes(waiting, chunks)
    decreases |chunks|
  {
    StuckIsShort(waiting);
    var c := Prepared(Cursor(|waiting|, begin, len));
    EveryNextIff(c);
    if chunks != [] {
      var all := waiting + chunks[0];
      ParseIsExact(all);
      PacketsMove(all);
      var r := Parse(all);
      if r.ok && r.packets != [] {
        WindowsFitIff(r.rest, |Concat(r.packets)|, c.len, chunks[1..]);
      } else if r.ok {
        assert |r.rest| > |waiting| && Concat(r.packets) == [];
        EveryNextIff(Prepared(Cursor(|r.rest|, 0, c.len)));
        assert !WindowsFit(r.rest, 0, c.len, chunks[1..]);
      }
    }
  }

  lemma BadIsRoomy(stream: seq<Byte>, chunks: seq<seq<Byte>>)
    requires !Parse(stream).ok
    ensures RoomyFrom(stream, chunks)
  {
    forall k | 0 <= k < |chunks| ensures RoomFor(stream + Concat(chunks[..k]), chunks[k]) {
      ParseContinues(stream, Concat(chunks[..k]));
    }
  }

  /** And then the run as it went is one in which every chunk lay in the buffer. */
  lemma {:induction false} FittingIsRoomy(stream: seq<Byte>, begin: nat, len: nat, chunks: seq<seq<Byte>>)
    requires Parse(stream).ok
    requires WindowsFit(Parse(stream).rest, begin, len, chunks) && AsPosted(Parse(stream).rest, begin, len, chunks)
    ensures RoomyFrom(stream, chunks)
    decreases |chunks|
  {
    if chunks != [] {
      var waiting := Parse(stream).rest;
      var c := Prepared(Cursor(|waiting|, begin, len));
      EveryNextIff(c);
      ParseContinues(stream, chunks[0]);
      RoomyStep(stream, chunks);
      var r := Parse(waiting + chunks[0]);
      if r.ok {
        FittingIsRoomy(stream + chunks[0], |Concat(r.packets)|, c.len, chunks[1..]);
      } else {
        BadIsRoomy(stream + chunks[0], chunks[1..]);
      }
    }
  }

  /** A run whose receives each complete a packet, none longer than posted, stays in the buffer. */
  lemma CompletingIsRoomy(len: nat, chunks: seq<seq<Byte>>)
    requires forall k :: 0 <= k < |chunks| ==> chunks[k] != []
    requires EachCompletes([], chunks) && AsPosted([], 0, len, chunks)
    ensures Roomy(chunks)
  {
    assert Parse([]) == Parsed([], [], true);
    WindowsFitIff([], 0, len, chunks);
    FittingIsRoomy([], 0, len, chunks);
    RoomyIsFromStart(chunks);
  }

  /** The shortest case of the contrary: one byte into a fresh buffer, and a full window behind it. */
  lemma OneByteThenFull(b: Byte, full: seq<Byte>)
    requires |full| == MAX_SIZE
    ensures AsPosted([], 0, 0, [[b], full]) && LandAll(Holding(EMPTY), [[b], full]) == Overrun
  {
    var chunks := [[b], full];
    assert [] + [b] == [b] && chunks[1..] == [full] && [full][1..] == [];
    ParseStops([b]);
    var c := Prepared(Cursor(1, 0, MAX_SIZE));
    assert c == Cursor(1, 0, MAX_SIZE);
    assert Concat(Parse([b]).packets) == [];
    assert AsPosted([b], 0, MAX_SIZE, [full]);
    assert Land(Holding(EMPTY), [b]) == Holding(Receive(EMPTY, [b]));
    assert Receive(EMPTY, [b]).waiting == [b] && Receive(EMPTY, [b]).ok;
    assert LandAll(Holding(Receive(EMPTY, [b])), [full]) == LandAll(Overrun, []);
  }

  // ---- Several sessions on one thread ----

  /** A receive completed on the thread. */
  datatype Arrival = Arrival(session: nat, chunk: seq<Byte>)

  function WaitingOf(sessions: map<nat, seq<Byte>>, x: nat): seq<Byte> {
    if x in sessions then sessions[x] else []
  }

  /** Each session's next receive is posted with the length the thread's one WSABUF has then, and
      whatever may arrive up to that length lies in that session's buffer. */
  ghost predicate ThreadFits(sessions: map<nat, seq<Byte>>, len: nat, events: seq<Arrival>)
    decreases |events|
  {
    events != [] ==>
      var r := Parse(WaitingOf(sessions, events[0].session) + events[0].chunk);
      var c := Prepared(Cursor(|r.rest|, |Concat(r.packets)|, len));
      if !r.ok then ThreadFits(sessions, len, events[1..])
      else
        && (forall next: seq<Byte> :: |next| <= c.len ==> c.waiting + |next| <= MAX_SIZE)
        && ThreadFits(sessions[events[0].session := r.rest], c.len, events[1..])
  }

  /** Every receive completes a packet, or leaves no more waiting than the last one on the thread
      that did, or left nothing, had left; `level` is what that one left. */
  predicate StaysLevel(sessions: map<nat, seq<Byte>>, level: nat, events: seq<Arrival>)
    decreases |events|
  {
    events != [] ==>
      var r := Parse(WaitingOf(sessions, events[0].session) + events[0].chunk);
      var sets := r.rest == [] || r.packets != [];
      if !r.ok then StaysLevel(sessions, level, events[1..])
      else
        && (sets || |r.rest| <= level)
        && StaysLevel(sessions[events[0].session := r.rest], if sets then |r.rest| else level, events[1..])
  }

  /** For any sessions whose receives complete on one thread, in any order, from a length last posted
      for a session with `level` bytes waiting: whatever arrives lies in its buffer exactly when each
      receive completes a packet or leaves no more waiting than the last that set the length. */
  lemma {:induction false} ThreadFitsIff(sessions: map<nat, seq<Byte>>, level: nat, events: seq<Arrival>)
    requires level <= MAX_SIZE
    ensures ThreadFits(sessions, MAX_SIZE - level, events) <==> StaysLevel(sessions, level, events)
    decreases |events|
  {
    if events != [] {
      var x := events[0].session;
      var all := WaitingOf(sessions, x) + events[0].chunk;
      var r := Parse(all);
      PacketsMove(all);
      ParseIsExact(all);
      var c := Prepared(Cursor(|r.rest|, |Concat(r.packets)|, MAX_SIZE - level));
      EveryNextIff(c);
      if !r.ok {
        ThreadFitsIff(sessions, level, events[1..]);
      } else {
        StuckIsShort(r.rest);
        if r.packets == [] { assert Concat(r.packets) == []; }
        var next := if r.rest == [] || r.packets != [] then |r.rest| else level;
        assert c.len == MAX_SIZE - next && c.waiting == |r.rest|;
        ThreadFitsIff(sessions[x := r.rest], next, events[1..]);
      }
    }
  }
}
