/** HNetIoSend: a ring of buffers that gathers packets while one send is in flight. */
module GatheringSend {
  import opened Wrappers
  import opened PacketStream
  import opened SendQueue

  class Gathering {
    /** The first _lenth bytes of _buf. */
    var data: seq<Byte>
    var count: nat
    var next: Gathering?

    /** The buffer holds the packets `items`. */
    ghost predicate Holds(items: seq<Item>)
      reads this`data, this`count
    {
      data == Bytes(items) && count == |items|
    }

    constructor ()
      ensures Holds([]) && next == null
    {
      data, count, next := [], 0, null;
    }

    method Release()
      modifies this`data, this`count
      ensures Holds([])
    {
      data, count := [], 0;
    }

    method Append(p: seq<Byte>, ghost items: seq<Item>, ghost item: Item) returns (ok: bool)
      requires Holds(items) && item.bytes == p
      modifies this`data, this`count
      ensures ok <==> |Bytes(items)| + |p| < 32500
      ensures Holds(if ok then items + [item] else items)
    {
      if MAX_SIZE <= |p| + |data| { return false; }
      BytesLast(items, item);
      data, count := data + p, count + 1;
      ok := true;
    }
  }

  /** The gatherings of `ring` are linked in a circle. */
  ghost predicate Circle(ring: seq<Gathering>)
    reads ring`next
  {
    ring != [] && forall u :: Shown(u) ==>
      && (forall i, j :: 0 <= i < j < |ring| ==> ring[i] != ring[j])
      && (forall i :: 0 <= i < |ring| - 1 ==> ring[i].next == ring[i + 1])
      && ring[|ring| - 1].next == ring[0]
  }

  /** From the head round the buffers hold these packets. */
  ghost predicate Hold(ring: seq<Gathering>, bufs: seq<seq<Item>>)
    reads ring`data, ring`count
  {
    |ring| == |bufs| && forall u :: Shown(u) ==> forall i :: 0 <= i < |ring| ==> ring[i].Holds(bufs[i])
  }

  /** Every buffer keeps within its size; folded away from the proofs about the ring. */
  ghost predicate Kept(s: Sender) {
    Formed(s) && forall u :: Shown(u) ==> Shaped(s)
  }

  lemma KeptStep(s: Sender, op: Op)
    requires Kept(s) && Enabled(s, op)
    ensures Kept(Next(s, op))
  {
    assert Shown(0);
    StepShapes(s, op);
  }

  lemma KeptBounds(s: Sender)
    requires Kept(s) && s.bufs != []
    ensures Holdable(s.bufs[0])
  {
    assert Shown(0);
  }

  lemma UnusedIsKept(s: Sender)
    requires Unused(s)
    ensures Kept(s)
  {
    assert Shaped(s);
  }

  class HNetIoSend {
    var head: Gathering?
    var tail: Gathering?
    var pending: bool
    /** The write lock of _lock is held although no call is in a step. */
    var locked: bool
    /** The ring from the head round, and what the fields stand for. */
    ghost var ring: seq<Gathering>
    ghost var state: Sender

    ghost predicate Shape(bufs: seq<seq<Item>>, at: nat)
      reads this, ring
    {
      && Circle(ring) && Hold(ring, bufs) && at < |bufs|
      && head == ring[0] && tail == ring[at]
    }

    ghost predicate Valid()
      reads this, ring
    {
      && Kept(state) && pending == state.pending && locked == state.locked
      && (if state.bufs != [] then Shape(state.bufs, state.tail) else head == null && tail == null && ring == [])
    }

    constructor ()
      ensures Valid() && Unused(state)
    {
      head, tail, pending, locked, ring := null, null, false, false, [];
      ghost var s := Blank();
      state := s;
      UnusedIsKept(s);
    }

    /** Buffers that were not there before are new. */
    twostate predicate Grown(was: seq<Gathering>)
      reads this`ring
    {
      forall g <- ring :: g in was || fresh(g)
    }

    /** For a session's first connection, or for a later one, whatever is going on. */
    method Initialize()
      requires Valid()
      modifies this
      ensures Valid() && state == Next(old(state), SendQueue.Initialize) && Grown(old(ring))
    {
      KeptStep(state, SendQueue.Initialize);
      state := Next(state, SendQueue.Initialize);
      pending := false;
      if head == null { FirstBuffer(); }
    }

    method FirstBuffer()
      modifies this`head, this`tail, this`ring
      ensures Shape([[]], 0) && |ring| == 1 && fresh(ring[0])
    {
      head := new Gathering();
      head.next := head;
      tail := head;
      ring := [head];
      assert Circle(ring) && Hold(ring, [[]]);
    }

    /** The loop of Clear, once round the ring. */
    method EmptyAll()
      requires Circle(ring) && head == ring[0]
      modifies ring`data, ring`count
      ensures Hold(ring, Empties(|ring|))
    {
      var cur := head;
      cur.Release();
      WrapsAtEnd(ring, 0);
      cur := cur.next;
      ghost var i := 1;
      while cur != head
        invariant 1 <= i <= |ring| && cur == if i < |ring| then ring[i] else head
        invariant forall j :: 0 <= j < i ==> ring[j].Holds([])
        decreases |ring| - i
      {
        assert cur == ring[i];
        cur.Release();
        WrapsAtEnd(ring, i);
        cur := cur.next;
        i := i + 1;
      }
      if i < |ring| { IsHead(ring, i); }
      AllEmpty(ring);
    }

    /** All buffers emptied, whatever was queued, and the ring kept from the tail on. Before the
        first Initialize there is no buffer, and the loop follows a null pointer: `ok` is false, and
        the process ends there. */
    method Clear() returns (ok: bool)
      requires Valid()
      modifies this`head, this`ring, this`state, ring`data, ring`count
      ensures ok == (old(state).bufs != [])
      ensures ok ==> Valid() && state == Next(old(state), SendQueue.Clear) && Grown(old(ring))
    {
      if head == null { return false; }
      KeptStep(state, SendQueue.Clear);
      ghost var bufs, at := state.bufs, state.tail;
      state := Next(state, SendQueue.Clear);
      EmptyRing(bufs, at);
      ok := true;
    }

    method EmptyRing(ghost bufs: seq<seq<Item>>, ghost at: nat)
      requires Shape(bufs, at)
      modifies this`head, this`ring, ring`data, ring`count
      ensures Shape(Empties(|bufs|), 0) && head == tail && Grown(old(ring))
    {
      EmptyAll();
      HeadToTail(at);
    }

    method HeadToTail(ghost k: nat)
      requires Circle(ring) && Hold(ring, Empties(|ring|)) && k < |ring| && tail == ring[k]
      modifies this`head, this`ring
      ensures Shape(Empties(|old(ring)|), 0) && head == tail && ring == From(old(ring), k) && Grown(old(ring))
    {
      Rotated(ring, k);
      EmptyFrom(ring, k);
      ring, head := From(ring, k), tail;
    }

    /** A step past the tail: to a new buffer if the next one is the head. */
    method NextBuffer(ghost bufs: seq<seq<Item>>, ghost at: nat)
      requires Shape(bufs, at)
      modifies this`tail, this`ring, tail`next
      ensures Shape(WithNext(bufs, at), at + 1) && Grown(old(ring))
    {
      MakeRoom(bufs, at);
      tail := tail.next;
    }

    /** A new buffer linked in between the tail and the head if they are neighbours. */
    method MakeRoom(ghost bufs: seq<seq<Item>>, ghost at: nat)
      requires Shape(bufs, at)
      modifies this`ring, tail`next
      ensures Grown(old(ring))
      ensures Circle(ring) && Hold(ring, WithNext(bufs, at)) && at + 1 < |ring| && ring[0] == head
      ensures tail == ring[at] && tail.next == ring[at + 1]
    {
      WrapsAtEnd(ring, at);
      if head == tail.next {
        var g := new Gathering();
        Link(g);
        HoldGrown(old(ring), g, bufs);
        WrapsAtEnd(ring, at);
      }
    }

    method Link(g: Gathering)
      requires Circle(ring) && head == ring[0] && tail == ring[|ring| - 1] && g !in ring
      modifies this`ring, tail`next, g`next
      ensures ring == old(ring) + [g] && Circle(ring)
    {
      assert Shown(0);
      tail.next := g;
      tail.next.next := head;
      ring := ring + [g];
    }

    /** Puts the packet into the tail buffer if it fits there. */
    method TryAppend(p: seq<Byte>, ghost item: Item, ghost bufs: seq<seq<Item>>, ghost at: nat) returns (ok: bool)
      requires Shape(bufs, at) && item.bytes == p
      modifies tail`data, tail`count
      ensures ok == FitsAt(bufs, at, |p|)
      ensures Shape(if ok then AddAt(bufs, at, item) else bufs, at)
    {
      assert Shown(0);
      ok := tail.Append(p, bufs[at], item);
    }

    /** The loop of Send, given a number of turns: buffers are tried, and added, until one takes the
        packet. */
    method Place(p: seq<Byte>, ghost item: Item, ghost bufs: seq<seq<Item>>, ghost at: nat, turns: nat)
      returns (placed: bool)
      requires Shape(bufs, at) && item.bytes == p
      modifies this`tail, this`ring, ring
      ensures var r := Tried(bufs, at, item, turns); placed == r.0 && Shape(r.1, r.2) && Grown(old(ring))
    {
      ghost var cur, now := bufs, at;
      var left := turns;
      placed := TryAppend(p, item, bufs, at);
      if placed { cur := AddAt(bufs, at, item); }
      while !placed && left > 0
        invariant 0 <= left && Grown(old(ring)) && Shape(cur, now)
        invariant if placed then Tried(bufs, at, item, turns) == (true, cur, now)
                  else Tried(bufs, at, item, turns) == Tried(cur, now, item, left) && !FitsAt(cur, now, |p|)
        decreases left, !placed
      {
        left := left - 1;
        assert tail in ring;
        NextBuffer(cur, now);
        cur, now := WithNext(cur, now), now + 1;
        assert tail in ring;
        placed := TryAppend(p, item, cur, now);
        if placed { cur := AddAt(cur, now, item); }
      }
    }

    /** Send up to the point where it leaves the lock; `post` tells the caller to go on with
        PostHead. The loop is given more turns than there are buffers. Without buffers the call
        returns and keeps the lock; with a packet that fits none it does not return. */
    method Send(p: seq<Byte>, turns: nat) returns (returned: bool, post: bool)
      requires Valid() && !locked && turns > |state.bufs|
      modifies this, ring
      ensures state == Next(old(state), SendQueue.Send(p)) && locked == state.locked && Grown(old(ring))
      ensures returned <==> old(state).bufs == [] || |p| < MAX_SIZE
      ensures returned ==> Valid()
      ensures !returned ==>
                var item := Item(|old(state).accepted|, p);
                var r := Tried(old(state).bufs, old(state).tail, item, turns);
                !r.0 && Shape(r.1, r.2)
      ensures post <==> !old(state).pending && state.pending
    {
      ghost var item, bufs, at := Item(|state.accepted|, p), state.bufs, state.tail;
      KeptStep(state, SendQueue.Send(p));
      state, locked := Next(state, SendQueue.Send(p)), true;
      if tail == null { return true, false; }
      TriedIff(bufs, at, item, turns);
      returned, post := PlaceAndLeave(p, item, bufs, at, turns);
    }

    /** Send from its loop on. */
    method PlaceAndLeave(p: seq<Byte>, ghost item: Item, ghost bufs: seq<seq<Item>>, ghost at: nat, turns: nat)
      returns (placed: bool, post: bool)
      requires Shape(bufs, at) && item.bytes == p && locked
      modifies this`tail, this`ring, this`pending, this`locked, ring
      ensures var r := Tried(bufs, at, item, turns);
              && placed == r.0 && locked == !placed && Grown(old(ring))
              && (if !placed || old(pending) then Shape(r.1, r.2) && pending == old(pending) && !post
                  else Shape(WithNext(r.1, r.2), r.2 + 1) && pending && post)
    {
      placed := Place(p, item, bufs, at, turns);
      if !placed { return false, false; }
      assert tail in ring;
      post := Leave(Tried(bufs, at, item, turns).1, Tried(bufs, at, item, turns).2);
    }

    /** The rest of the locked part of Send. */
    method Leave(ghost bufs: seq<seq<Item>>, ghost at: nat) returns (post: bool)
      requires Shape(bufs, at)
      modifies this`tail, this`ring, this`pending, this`locked, tail`next
      ensures if old(pending) then Shape(bufs, at) else Shape(WithNext(bufs, at), at + 1)
      ensures pending && !locked && post == !old(pending) && Grown(old(ring))
    {
      if pending {
        locked := false;
        return false;
      }
      pending := true;
      NextBuffer(bufs, at);
      locked := false;
      post := true;
    }

    /** _Send, outside the lock: the head buffer as it is handed to WSASend, which takes it or
        fails. */
    method PostHead(taken: bool) returns (bytes: seq<Byte>)
      requires Valid() && state.toPost > 0
      modifies this`state
      ensures Valid() && state == Next(old(state), if taken then Post else Fail)
      ensures bytes == Bytes(old(state).bufs[0]) && |bytes| < MAX_SIZE
    {
      HeadHolds(ring, state.bufs);
      KeptStep(state, if taken then Post else Fail);
      KeptBounds(state);
      bytes := head.data;
      state := Next(state, if taken then Post else Fail);
    }

    /** The part of Sended before the lock: the head buffer is emptied. */
    method ReleaseHead()
      requires Valid() && state.flying > 0
      modifies this`state, head`data, head`count
      ensures Valid() && state == Next(old(state), SendQueue.Release)
    {
      KeptStep(state, SendQueue.Release);
      state := Next(state, SendQueue.Release);
      Empty(old(state).bufs, old(state).tail);
    }

    method Empty(ghost bufs: seq<seq<Item>>, ghost at: nat)
      requires Shape(bufs, at)
      modifies head`data, head`count
      ensures Shape(bufs[0 := []], at)
    {
      assert Shown(0);
      head.Release();
    }

    /** The head moves on to the next buffer. */
    method MoveHead(ghost bufs: seq<seq<Item>>, ghost at: nat)
      requires Shape(bufs, at)
      modifies this`head, this`ring
      ensures Shape(Turned(bufs), if at == 0 then |bufs| - 1 else at - 1) && Grown(old(ring))
    {
      TurnedRing(ring, bufs);
      head := head.next;
      ring := Turned(ring);
    }

    /** The tail moves on from the head, if there is anywhere to go. */
    method MoveTail(ghost bufs: seq<seq<Item>>)
      requires Shape(bufs, 0)
      modifies this`tail
      ensures Shape(bufs, if |bufs| > 1 then 1 else 0)
    {
      WrapsAtEnd(ring, 0);
      tail := tail.next;
    }

    /** The part of Sended under the lock; `post` tells the caller to go on with PostHead. */
    method Advance() returns (post: bool)
      requires Valid() && state.emptied > 0 && !locked
      modifies this
      ensures Valid() && state == Next(old(state), SendQueue.Advance)
      ensures post == (state.toPost > old(state).toPost) && Grown(old(ring))
    {
      KeptStep(state, SendQueue.Advance);
      ghost var bufs, at := Turned(state.bufs), if state.tail == 0 then |state.bufs| - 1 else state.tail - 1;
      state := Next(state, SendQueue.Advance);
      MoveHead(old(state).bufs, old(state).tail);
      post := GoOn(bufs, at);
    }

    /** The rest of the locked part of Sended. */
    method GoOn(ghost bufs: seq<seq<Item>>, ghost at: nat) returns (post: bool)
      requires Shape(bufs, at)
      modifies this`tail, this`pending
      ensures post == (Bytes(bufs[0]) != []) && pending == (old(pending) && post)
      ensures Shape(bufs, if post && at == 0 && |bufs| > 1 then 1 else at)
    {
      HeadHolds(ring, bufs);
      IsHead(ring, at);
      if |head.data| == 0 {
        pending := false;
        return false;
      } else if tail == head {
        MoveTail(bufs);
      }
      post := true;
    }
  }

  lemma IsHead(ring: seq<Gathering>, i: nat)
    requires Circle(ring) && i < |ring|
    ensures ring[i] == ring[0] <==> i == 0
  {
    assert Shown(0);
  }

  lemma HoldGrown(ring: seq<Gathering>, g: Gathering, bufs: seq<seq<Item>>)
    requires Hold(ring, bufs) && g.Holds([])
    ensures Hold(ring + [g], bufs + [[]])
  {
    assert Shown(0);
  }

  lemma AllEmpty(ring: seq<Gathering>)
    requires forall i :: 0 <= i < |ring| ==> ring[i].Holds([])
    ensures Hold(ring, Empties(|ring|))
  {
  }

  lemma CircleTurned(ring: seq<Gathering>)
    requires Circle(ring)
    ensures Circle(Turned(ring)) && ring[0].next == Turned(ring)[0]
  {
    assert Shown(0);
  }

  /** The ring seen from another of its buffers. */
  ghost function From(ring: seq<Gathering>, k: nat): seq<Gathering>
    requires k <= |ring|
  {
    ring[k..] + ring[..k]
  }

  lemma {:induction false} Rotated(ring: seq<Gathering>, k: nat)
    requires Circle(ring) && k < |ring|
    ensures var round := From(ring, k);
            && Circle(round) && |round| == |ring| && round[0] == ring[k]
            && (forall g <- round :: g in ring)
  {
    if k == 0 {
      assert ring[0..] + ring[..0] == ring;
    } else {
      Rotated(ring, k - 1);
      var before := From(ring, k - 1);
      CircleTurned(before);
      assert Turned(before) == From(ring, k);
    }
  }

  lemma EmptyFrom(ring: seq<Gathering>, k: nat)
    requires Hold(ring, Empties(|ring|)) && k < |ring|
    ensures Hold(From(ring, k), Empties(|ring|))
  {
    assert Shown(0);
    var round := From(ring, k);
    forall i | 0 <= i < |round| ensures round[i].Holds([]) {
      assert round[i] == if i < |ring| - k then ring[k + i] else ring[i - (|ring| - k)];
    }
    AllEmpty(round);
  }

  lemma TurnedRing(ring: seq<Gathering>, bufs: seq<seq<Item>>)
    requires Circle(ring) && Hold(ring, bufs)
    ensures Circle(Turned(ring)) && Hold(Turned(ring), Turned(bufs)) && ring[0].next == Turned(ring)[0]
    ensures forall g <- Turned(ring) :: g in ring
  {
    CircleTurned(ring);
    assert Shown(0);
  }

  /** The head buffer holds the packets of the first. */
  lemma HeadHolds(ring: seq<Gathering>, bufs: seq<seq<Item>>)
    requires Hold(ring, bufs) && bufs != []
    ensures ring[0].Holds(bufs[0])
  {
    assert Shown(0);
  }

  lemma WrapsAtEnd(ring: seq<Gathering>, i: nat)
    requires Circle(ring) && i < |ring|
    ensures ring[i].next == ring[0] <==> i == |ring| - 1
    ensures i < |ring| - 1 ==> ring[i].next == ring[i + 1]
  {
    assert Shown(0);
    if i < |ring| - 1 { assert ring[0] != ring[i + 1]; }
  }
}
