/** What HNetIoSend does, as a machine over its lock-delimited steps. */
module SendQueue {
  import opened PacketStream

  /** A packet accepted by Send, with its number among those accepted. */
  datatype Item = Item(nth: nat, bytes: seq<Byte>)

  function Payloads(items: seq<Item>): (ps: seq<seq<Byte>>)
    ensures |ps| == |items| && forall k :: 0 <= k < |items| ==> ps[k] == items[k].bytes
  {
    seq(|items|, k requires 0 <= k < |items| => items[k].bytes)
  }

  function Bytes(items: seq<Item>): seq<Byte> {
    Concat(Payloads(items))
  }

  /** `bufs` are the packets in each buffer of the ring, from the head round, and `tail` is the
      buffer being filled; without buffers nothing has been initialised. `locked` is whether a call
      of Send keeps the write lock for ever.

      The sends under way are counted by where they stand: `toPost` threads have left the lock to
      post the head buffer, `flying` sends the kernel has, and `emptied` completions have emptied the
      head buffer and wait for the lock to move on.

      The rest is history since the last Clear: the packets accepted, and those of each buffer handed
      to the kernel. */
  datatype Sender = Sender(bufs: seq<seq<Item>>, tail: nat, locked: bool, pending: bool,
                           toPost: nat, flying: nat, emptied: nat,
                           accepted: seq<Item>, posts: seq<seq<Item>>)

  datatype Op = Initialize | Clear | Send(packet: seq<Byte>) | Post | Fail | Release | Advance

  /** A session's send side as constructed. */
  predicate Unused(s: Sender) {
    && s.bufs == [] && s.tail == 0 && !s.locked && !s.pending && UnderWay(s) == 0
    && s.accepted == [] && s.posts == []
  }

  function UnderWay(s: Sender): nat { s.toPost + s.flying + s.emptied }

  lemma Blank() returns (s: Sender)
    ensures Unused(s) && Shaped(s)
  {
    s := Sender([], 0, false, false, 0, 0, 0, [], []);
  }

  // ---- One packet into the buffers ----

  /** Gathering::Append takes a packet behind `used` bytes. */
  predicate Fits(used: nat, lenth: nat) {
    !(MAX_SIZE <= lenth + used)
  }

  predicate FitsAt(bufs: seq<seq<Item>>, tail: nat, lenth: nat)
    requires tail < |bufs|
  {
    Fits(|Bytes(bufs[tail])|, lenth)
  }

  /** The buffers once the one behind the tail is there: a new one, if that would be the head. */
  function WithNext(bufs: seq<seq<Item>>, tail: nat): seq<seq<Item>> {
    if tail + 1 < |bufs| then bufs else bufs + [[]]
  }

  function AddAt(bufs: seq<seq<Item>>, tail: nat, item: Item): seq<seq<Item>>
    requires tail < |bufs|
  {
    bufs[tail := bufs[tail] + [item]]
  }

  /** The buffers and the tail once the first buffer from the tail on has taken the packet. */
  function Put(bufs: seq<seq<Item>>, tail: nat, item: Item): (r: (seq<seq<Item>>, nat))
    requires tail < |bufs|
    ensures tail <= r.1 < |r.0|
    decreases |bufs| - tail
  {
    if FitsAt(bufs, tail, |item.bytes|) then (AddAt(bufs, tail, item), tail)
    else if tail + 1 < |bufs| then Put(bufs, tail + 1, item)
    else (bufs + [[item]], tail + 1)
  }

  /** The turns of the loop of Send that a packet shorter than a buffer takes beyond the first try. */
  function Needed(bufs: seq<seq<Item>>, tail: nat, lenth: nat): (n: nat)
    requires tail < |bufs|
    ensures n <= |bufs| - tail
    decreases |bufs| - tail
  {
    if FitsAt(bufs, tail, lenth) then 0
    else if tail + 1 < |bufs| then 1 + Needed(bufs, tail + 1, lenth)
    else 1
  }

  /** The loop of Send, given a number of turns: whether a buffer has taken the packet, and the
      buffers and the tail then. */
  function Tried(bufs: seq<seq<Item>>, tail: nat, item: Item, turns: nat): (r: (bool, seq<seq<Item>>, nat))
    requires tail < |bufs|
    ensures r.2 < |r.1|
    decreases turns
  {
    if FitsAt(bufs, tail, |item.bytes|) then (true, AddAt(bufs, tail, item), tail)
    else if turns == 0 then (false, bufs, tail)
    else Tried(WithNext(bufs, tail), tail + 1, item, turns - 1)
  }

  // ---- The steps ----

  /** A call that needs the lock goes ahead only once it gets it. Initialize and Clear take none. */
  predicate Enabled(s: Sender, op: Op) {
    match op
    case Initialize => true
    case Clear => s.bufs != []
    case Send(_) => !s.locked
    case Post => s.toPost > 0
    case Fail => s.toPost > 0
    case Release => s.flying > 0
    case Advance => s.emptied > 0 && !s.locked
  }

  predicate Holdable(buffer: seq<Item>) {
    |Bytes(buffer)| < MAX_SIZE
  }

  predicate Formed(s: Sender) {
    if s.bufs == [] then s.tail == 0 && !s.pending && UnderWay(s) == 0 else s.tail < |s.bufs|
  }

  predicate Shaped(s: Sender) {
    && Formed(s)
    && (forall i :: 0 <= i < |s.bufs| ==> Holdable(s.bufs[i]))
  }

  function Empties(n: nat): (bufs: seq<seq<Item>>)
    ensures |bufs| == n && forall i :: 0 <= i < n ==> bufs[i] == []
  {
    seq(n, i => [])
  }

  /** The ring seen from the next buffer on. */
  function Turned<T>(ring: seq<T>): (round: seq<T>)
    requires ring != []
    ensures |round| == |ring|
  {
    ring[1..] + [ring[0]]
  }

  function Sending(s: Sender, p: seq<Byte>): Sender
    requires Formed(s)
  {
    if s.bufs == [] || MAX_SIZE <= |p| then s.(locked := true)
    else
      var item := Item(|s.accepted|, p);
      var (bufs, tail) := Put(s.bufs, s.tail, item);
      var took := s.(bufs := bufs, tail := tail, accepted := s.accepted + [item]);
      if s.pending then took
      else took.(bufs := WithNext(bufs, tail), tail := tail + 1, pending := true, toPost := s.toPost + 1)
  }

  function Advancing(s: Sender): Sender
    requires Formed(s) && s.emptied > 0
  {
    var bufs := Turned(s.bufs);
    var tail := if s.tail == 0 then |bufs| - 1 else s.tail - 1;
    var moved := s.(bufs := bufs, tail := tail, emptied := s.emptied - 1);
    if Bytes(bufs[0]) == [] then moved.(pending := false)
    else moved.(tail := if tail == 0 && |bufs| > 1 then 1 else tail, toPost := s.toPost + 1)
  }

  function Next(s: Sender, op: Op): Sender
    requires Formed(s) && Enabled(s, op)
  {
    match op
    case Initialize => s.(bufs := if s.bufs == [] then [[]] else s.bufs, pending := false)
    case Clear => s.(bufs := Empties(|s.bufs|), tail := 0, accepted := [], posts := [])
    case Send(p) => Sending(s, p)
    case Post => s.(posts := s.posts + [s.bufs[0]], toPost := s.toPost - 1, flying := s.flying + 1)
    case Fail => s.(toPost := s.toPost - 1)
    case Release => s.(bufs := s.bufs[0 := []], flying := s.flying - 1, emptied := s.emptied + 1)
    case Advance => Advancing(s)
  }

  lemma ConcatLast<T>(a: seq<seq<T>>, x: seq<T>)
    ensures Concat(a + [x]) == Concat(a) + x
  {
    ConcatAppend(a, [x]);
    assert [x][1..] == [] && Concat([x]) == x + [];
  }

  lemma BytesLast(items: seq<Item>, item: Item)
    ensures Bytes(items + [item]) == Bytes(items) + item.bytes
  {
    assert Payloads(items + [item]) == Payloads(items) + [item.bytes];
    ConcatLast(Payloads(items), item.bytes);
  }

  lemma BytesAppend(a: seq<Item>, b: seq<Item>)
    ensures Bytes(a + b) == Bytes(a) + Bytes(b)
  {
    assert Payloads(a + b) == Payloads(a) + Payloads(b);
    ConcatAppend(Payloads(a), Payloads(b));
  }

  lemma {:induction false} PutShapes(bufs: seq<seq<Item>>, tail: nat, item: Item)
    requires tail < |bufs| && |item.bytes| < MAX_SIZE
    requires forall i :: 0 <= i < |bufs| ==> Holdable(bufs[i])
    ensures forall i :: 0 <= i < |Put(bufs, tail, item).0| ==> Holdable(Put(bufs, tail, item).0[i])
    decreases |bufs| - tail
  {
    if FitsAt(bufs, tail, |item.bytes|) {
      BytesLast(bufs[tail], item);
    } else if tail + 1 < |bufs| {
      PutShapes(bufs, tail + 1, item);
    } else {
      BytesLast([], item);
      assert [] + [item] == [item] && [] + item.bytes == item.bytes;
    }
  }

  lemma StepShapes(s: Sender, op: Op)
    requires Shaped(s) && Enabled(s, op)
    ensures Shaped(Next(s, op))
  {
    if op.Send? && s.bufs != [] && |op.packet| < MAX_SIZE {
      PutShapes(s.bufs, s.tail, Item(|s.accepted|, op.packet));
    }
  }

  // ---- The loop of Send ----

  /** Given n turns the loop has placed the packet exactly if the packet is shorter than a buffer
      and n turns are as many as it needs; a longer one gets a step further, and adds a buffer when
      it has been round, in every turn. */
  lemma {:induction false} TriedIff(bufs: seq<seq<Item>>, tail: nat, item: Item, turns: nat)
    requires tail < |bufs|
    ensures var (placed, after, end) := Tried(bufs, tail, item, turns);
            && (placed <==> |item.bytes| < MAX_SIZE && Needed(bufs, tail, |item.bytes|) <= turns)
            && (placed ==> (after, end) == Put(bufs, tail, item))
            && (MAX_SIZE <= |item.bytes| ==> end == tail + turns)
    decreases turns
  {
    if !FitsAt(bufs, tail, |item.bytes|) && turns > 0 {
      var more := WithNext(bufs, tail);
      TriedIff(more, tail + 1, item, turns - 1);
      if |more| > |bufs| {
        assert more[tail + 1] == [] && [] + [item] == [item];
        assert more[tail + 1 := [item]] == bufs + [[item]];
      }
    }
  }

  /** So a packet of the full size, which Check accepts, keeps Send in its loop for ever. */
  lemma NeverPlacedIff(bufs: seq<seq<Item>>, tail: nat, item: Item)
    requires tail < |bufs| && IsPacket(item.bytes)
    ensures (forall turns: nat :: !Tried(bufs, tail, item, turns).0) <==> |item.bytes| == MAX_SIZE
  {
    forall turns: nat ensures Tried(bufs, tail, item, turns).0 ==> |item.bytes| < MAX_SIZE {
      TriedIff(bufs, tail, item, turns);
    }
    TriedIff(bufs, tail, item, Needed(bufs, tail, |item.bytes|));
  }

  // ---- Runs ----

  predicate Legal(s: Sender, run: seq<Op>)
    decreases |run|
  {
    Shaped(s) && (run != [] ==> Enabled(s, run[0]) && Legal(Next(s, run[0]), run[1..]))
  }

  function After(s: Sender, run: seq<Op>): (t: Sender)
    requires Legal(s, run)
    ensures Shaped(t)
    decreases |run|
  {
    if run == [] then s else After(Next(s, run[0]), run[1..])
  }

  /** No Initialize and no Clear. */
  predicate Within(run: seq<Op>) {
    forall k :: 0 <= k < |run| ==> !run[k].Initialize? && !run[k].Clear?
  }

  /** The packets that calls of Send took into the buffers, in the order in which they had the
      lock. */
  function Sent(run: seq<Op>): seq<seq<Byte>> {
    if run == [] then [] else Taken(run[0]) + Sent(run[1..])
  }

  function Taken(op: Op): seq<seq<Byte>> {
    if op.Send? && |op.packet| < MAX_SIZE then [op.packet] else []
  }

  // ---- The lock ----

  /** A call of Send that never gives the lock back: it came before the first Initialize, or its
      packet fits no buffer. */
  predicate KeepsLock(ring: bool, run: seq<Op>, k: nat)
    requires k < |run|
  {
    run[k].Send? && (MAX_SIZE <= |run[k].packet| || (!ring && Initialize !in run[..k]))
  }

  ghost predicate SomeKeepsLock(ring: bool, run: seq<Op>) {
    exists k :: 0 <= k < |run| && KeepsLock(ring, run, k)
  }

  lemma KeepsLockStep(ring: bool, run: seq<Op>)
    requires run != []
    ensures SomeKeepsLock(ring, run)
            <==> KeepsLock(ring, run, 0) || SomeKeepsLock(ring || run[0].Initialize?, run[1..])
  {
    var rest, ring' := run[1..], ring || run[0].Initialize?;
    forall k | 0 <= k < |rest| ensures KeepsLock(ring, run, k + 1) <==> KeepsLock(ring', rest, k) {
      assert run[..k + 1] == [run[0]] + rest[..k];
    }
    if k :| 0 <= k < |run| && KeepsLock(ring, run, k) && k > 0 { assert KeepsLock(ring', rest, k - 1); }
    if k :| 0 <= k < |rest| && KeepsLock(ring', rest, k) { assert KeepsLock(ring, run, k + 1); }
  }

  lemma StepLocks(s: Sender, op: Op)
    requires Shaped(s) && Enabled(s, op)
    ensures Next(s, op).locked <==> s.locked || (op.Send? && (s.bufs == [] || MAX_SIZE <= |op.packet|))
    ensures Next(s, op).bufs == [] <==> s.bufs == [] && !op.Initialize?
  {
  }

  lemma {:induction false} LockedIff(s: Sender, run: seq<Op>)
    requires Legal(s, run)
    ensures After(s, run).locked <==> s.locked || SomeKeepsLock(s.bufs != [], run)
    decreases |run|
  {
    if run != [] {
      StepLocks(s, run[0]);
      KeepsLockStep(s.bufs != [], run);
      LockedIff(Next(s, run[0]), run[1..]);
    }
  }

  /** In every run the lock is free between calls exactly if no packet of the full size and none
      before the first Initialize has been sent. */
  lemma LockFreeIff(s: Sender, run: seq<Op>)
    requires Unused(s) && Legal(s, run)
    ensures !After(s, run).locked
            <==> forall k :: 0 <= k < |run| && run[k].Send? ==> |run[k].packet| < MAX_SIZE && Initialize in run[..k]
  {
    LockedIff(s, run);
    forall k | 0 <= k < |run| && run[k].Send?
      ensures KeepsLock(false, run, k) <==> !(|run[k].packet| < MAX_SIZE && Initialize in run[..k])
    {
    }
  }
}
