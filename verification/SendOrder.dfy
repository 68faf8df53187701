/** That HNetIoSend hands every packet to the kernel once, in order, and when it does not. */
module SendOrder {
  import opened PacketStream
  import opened SendQueue

  ghost predicate Numbered(items: seq<Item>) {
    forall k :: 0 <= k < |items| ==> items[k].nth == k
  }

  /** What the kernel has not been given yet, while at most one send is under way: the head buffer
      is not among it from its post on. */
  function Unposted(s: Sender): seq<seq<Item>>
    requires s.flying + s.emptied > 0 ==> s.bufs != []
  {
    if s.flying + s.emptied > 0 then s.bufs[1..] else s.bufs
  }

  /** At most one send is under way, and its buffer is not the one being filled; every buffer before
      the tail holds packets, and none behind it does. */
  ghost predicate Tidy(s: Sender) {
    && Shaped(s) && UnderWay(s) <= 1 && (!s.pending ==> UnderWay(s) == 0)
    && (UnderWay(s) == 1 ==> s.tail > 0)
    && (s.emptied == 1 ==> s.bufs[0] == [])
    && (s.flying == 1 ==> s.posts != [] && s.posts[|s.posts| - 1] == s.bufs[0])
    && (forall i :: 0 <= i < s.tail && (i > 0 || s.emptied == 0) ==> s.bufs[i] != [])
    && (forall i :: s.tail < i < |s.bufs| ==> s.bufs[i] == [])
  }

  /** And nothing accepted is lost, doubled, split or out of order. */
  ghost predicate Sane(s: Sender) {
    && Tidy(s) && Numbered(s.accepted)
    && s.accepted == Concat(s.posts) + Concat(Unposted(s))
  }

  /** What has been handed to the kernel is a front part of what was accepted, each packet once. */
  ghost predicate FrontPart(s: Sender) {
    Concat(s.posts) <= s.accepted
  }

  // ---- Putting a packet into the buffers ----

  lemma {:induction false} NoneConcat<T>(bufs: seq<seq<T>>)
    requires forall i :: 0 <= i < |bufs| ==> bufs[i] == []
    ensures Concat(bufs) == []
  {
    if bufs != [] { NoneConcat(bufs[1..]); }
  }

  lemma {:induction false} ConcatAround<T>(bufs: seq<seq<T>>, i: nat)
    requires i < |bufs|
    ensures Concat(bufs) == Concat(bufs[..i]) + bufs[i] + Concat(bufs[i + 1..])
  {
    if i == 0 {
      assert bufs[..0] == [] && [] + bufs[0] == bufs[0];
    } else {
      var rest := bufs[1..];
      ConcatAround(rest, i - 1);
      assert bufs[..i] == [bufs[0]] + rest[..i - 1] && rest[i..] == bufs[i + 1..];
      ConcatFirst(bufs[0], rest[..i - 1]);
      Assoc(bufs[0], Concat(rest[..i - 1]), bufs[i]);
      Assoc(bufs[0], Concat(rest[..i - 1]) + bufs[i], Concat(bufs[i + 1..]));
    }
  }

  lemma AddAdds(bufs: seq<seq<Item>>, tail: nat, item: Item)
    requires tail < |bufs| && forall i :: tail < i < |bufs| ==> bufs[i] == []
    ensures Concat(AddAt(bufs, tail, item)) == Concat(bufs) + [item]
  {
    var after := AddAt(bufs, tail, item);
    ConcatAround(bufs, tail);
    ConcatAround(after, tail);
    assert after[..tail] == bufs[..tail] && after[tail + 1..] == bufs[tail + 1..];
    NoneConcat(bufs[tail + 1..]);
    Assoc(Concat(bufs[..tail]), bufs[tail], [item]);
  }

  lemma WithNextSame(bufs: seq<seq<Item>>, tail: nat)
    ensures Concat(WithNext(bufs, tail)) == Concat(bufs)
  {
    ConcatLast(bufs, []);
  }

  /** With nothing behind the tail, one buffer more is enough. */
  lemma PutIs(bufs: seq<seq<Item>>, tail: nat, item: Item)
    requires tail < |bufs| && |item.bytes| < MAX_SIZE && forall i :: tail < i < |bufs| ==> bufs[i] == []
    ensures if FitsAt(bufs, tail, |item.bytes|) then Put(bufs, tail, item) == (AddAt(bufs, tail, item), tail)
            else Put(bufs, tail, item) == (AddAt(WithNext(bufs, tail), tail + 1, item), tail + 1)
                 && Bytes(bufs[tail]) != []
  {
    assert Bytes([]) == [];
    if !FitsAt(bufs, tail, |item.bytes|) && tail + 1 == |bufs| {
      assert [] + [item] == [item] && WithNext(bufs, tail)[tail + 1 := [item]] == bufs + [[item]];
    }
  }

  lemma PutAdds(bufs: seq<seq<Item>>, tail: nat, item: Item)
    requires tail < |bufs| && |item.bytes| < MAX_SIZE && forall i :: tail < i < |bufs| ==> bufs[i] == []
    ensures var (after, end) := Put(bufs, tail, item);
            && Concat(after) == Concat(bufs) + [item]
            && after[end] != [] && (forall i :: 0 <= i < tail ==> after[i] == bufs[i])
            && (end == tail || (end == tail + 1 && after[tail] == bufs[tail] && Bytes(bufs[tail]) != []))
            && (forall i :: end < i < |after| ==> after[i] == [])
  {
    PutIs(bufs, tail, item);
    if FitsAt(bufs, tail, |item.bytes|) {
      AddAdds(bufs, tail, item);
    } else {
      WithNextSame(bufs, tail);
      AddAdds(WithNext(bufs, tail), tail + 1, item);
    }
  }

  /** The same behind the head buffer alone. */
  lemma PutAddsBehind(bufs: seq<seq<Item>>, tail: nat, item: Item)
    requires 0 < tail < |bufs| && |item.bytes| < MAX_SIZE && forall i :: tail < i < |bufs| ==> bufs[i] == []
    ensures var (after, _) := Put(bufs, tail, item);
            after[0] == bufs[0] && Concat(after[1..]) == Concat(bufs[1..]) + [item]
  {
    PutAdds(bufs, tail, item);
    var (after, _) := Put(bufs, tail, item);
    assert Concat(after) == after[0] + Concat(after[1..]) && Concat(bufs) == bufs[0] + Concat(bufs[1..]);
    Assoc(bufs[0], Concat(bufs[1..]), [item]);
    assert Concat(after)[|bufs[0]|..] == Concat(after[1..]);
    assert (bufs[0] + (Concat(bufs[1..]) + [item]))[|bufs[0]|..] == Concat(bufs[1..]) + [item];
  }

  // ---- What every step keeps ----

  lemma SendTidy(s: Sender, p: seq<Byte>)
    requires Tidy(s) && s.bufs != [] && |p| < MAX_SIZE && !s.locked
    ensures Tidy(Next(s, Send(p)))
  {
    StepShapes(s, Send(p));
    var item := Item(|s.accepted|, p);
    PutAdds(s.bufs, s.tail, item);
    var (bufs, tail) := Put(s.bufs, s.tail, item);
    assert forall i :: 0 <= i < tail ==> bufs[i] == s.bufs[i];
    assert forall i :: 0 <= i < tail + 1 && (i > 0 || s.emptied == 0) ==> bufs[i] != [];
    if !s.pending { assert forall i :: 0 <= i < tail + 1 ==> WithNext(bufs, tail)[i] == bufs[i]; }
  }

  lemma SendKeeps(s: Sender, p: seq<Byte>)
    requires Sane(s) && !s.locked
    ensures Sane(Next(s, Send(p)))
  {
    if s.bufs != [] && |p| < MAX_SIZE {
      var item := Item(|s.accepted|, p);
      var (bufs, tail) := Put(s.bufs, s.tail, item);
      SendTidy(s, p);
      PutAdds(s.bufs, s.tail, item);
      WithNextSame(bufs, tail);
      if s.flying + s.emptied > 0 { PutAddsBehind(s.bufs, s.tail, item); }
      Assoc(Concat(s.posts), Concat(Unposted(s)), [item]);
    }
  }

  lemma PostKeeps(s: Sender)
    requires Sane(s) && s.toPost > 0
    ensures Sane(Next(s, Post))
  {
    ConcatLast(s.posts, s.bufs[0]);
    Assoc(Concat(s.posts), s.bufs[0], Concat(s.bufs[1..]));
  }

  lemma ReleaseKeeps(s: Sender)
    requires Sane(s) && s.flying > 0
    ensures Sane(Next(s, Release))
  {
    StepShapes(s, Release);
    assert s.bufs[0 := []][1..] == s.bufs[1..];
  }

  lemma AdvanceTidy(s: Sender)
    requires Tidy(s) && Enabled(s, Advance)
    ensures Tidy(Next(s, Advance)) && UnderWay(Next(s, Advance)) == Next(s, Advance).toPost
    ensures Next(s, Advance).bufs == s.bufs[1..] + [[]]
  {
    StepShapes(s, Advance);
    assert Bytes([]) == [];
    var t := Next(s, Advance);
    assert forall i :: 0 <= i < |t.bufs| - 1 ==> t.bufs[i] == s.bufs[i + 1];
  }

  lemma AdvanceKeeps(s: Sender)
    requires Sane(s) && Enabled(s, Advance)
    ensures Sane(Next(s, Advance))
  {
    AdvanceTidy(s);
    ConcatLast(s.bufs[1..], []);
  }

  lemma InitializeKeeps(s: Sender)
    requires Sane(s) && UnderWay(s) == 0
    ensures Sane(Next(s, Initialize))
  {
    StepShapes(s, Initialize);
    NoneConcat(Empties(1));
    assert s.bufs == [] ==> Next(s, Initialize).bufs == Empties(1);
  }

  lemma ClearKeeps(s: Sender)
    requires Sane(s) && s.bufs != [] && UnderWay(s) == 0
    ensures Sane(Next(s, Clear))
  {
    StepShapes(s, Clear);
    NoneConcat(Empties(|s.bufs|));
  }

  /** Initialize or Clear while a send stands between its lock and its completion. */
  predicate Cuts(s: Sender, op: Op) {
    (op.Initialize? || op.Clear?) && UnderWay(s) > 0
  }

  lemma StepKeeps(s: Sender, op: Op)
    requires Sane(s) && Enabled(s, op) && !Cuts(s, op)
    ensures Sane(Next(s, op)) && FrontPart(Next(s, op))
  {
    match op {
      case Initialize => InitializeKeeps(s);
      case Clear => ClearKeeps(s);
      case Send(p) => SendKeeps(s, p);
      case Post => PostKeeps(s);
      case Fail =>
      case Release => ReleaseKeeps(s);
      case Advance => AdvanceKeeps(s);
    }
  }

  predicate Uncut(s: Sender, run: seq<Op>)
    requires Legal(s, run)
    decreases |run|
  {
    run == [] || (!Cuts(s, run[0]) && Uncut(Next(s, run[0]), run[1..]))
  }

  lemma {:induction false} RunKeeps(s: Sender, run: seq<Op>)
    requires Sane(s) && Legal(s, run) && Uncut(s, run)
    ensures Sane(After(s, run)) && FrontPart(After(s, run))
    decreases |run|
  {
    if run != [] {
      StepKeeps(s, run[0]);
      RunKeeps(Next(s, run[0]), run[1..]);
    }
  }

  lemma {:induction false} WithinIsUncut(s: Sender, run: seq<Op>)
    requires Legal(s, run) && Within(run)
    ensures Uncut(s, run)
    decreases |run|
  {
    if run != [] {
      assert !run[0].Initialize? && !run[0].Clear?;
      WithinIsUncut(Next(s, run[0]), run[1..]);
    }
  }

  // ---- Within a connection ----

  /** No bytes lie in a buffer while no send is pending, and only the head and the tail may hold
      none. */
  ghost predicate Flowing(s: Sender) {
    && Shaped(s)
    && (!s.pending && s.bufs != [] ==> s.tail == 0 && Bytes(s.bufs[0]) == [])
    && (forall i :: 0 < i < s.tail ==> Bytes(s.bufs[i]) != [])
  }

  /** Every step that does not cut into a send keeps that, except that Initialize does exactly when
      it finds no buffer but the head in use, and no bytes in it. */
  lemma StepFlows(s: Sender, op: Op)
    requires Sane(s) && Flowing(s) && Enabled(s, op) && !Cuts(s, op)
    ensures Flowing(Next(s, op))
            <==> (op.Initialize? && s.bufs != [] ==> s.tail == 0 && Bytes(s.bufs[0]) == [])
  {
    StepKeeps(s, op);
    assert Bytes([]) == [];
    match op {
      case Send(p) =>
        if s.bufs != [] && |p| < MAX_SIZE { SendFlows(s, p); }
      case Advance => AdvanceFlows(s);
      case _ =>
    }
  }

  lemma SendFlows(s: Sender, p: seq<Byte>)
    requires Sane(s) && Flowing(s) && !s.locked && s.bufs != [] && |p| < MAX_SIZE
    ensures Flowing(Next(s, Send(p)))
  {
    SendTidy(s, p);
    PutAdds(s.bufs, s.tail, Item(|s.accepted|, p));
    PutIs(s.bufs, s.tail, Item(|s.accepted|, p));
  }

  lemma AdvanceFlows(s: Sender)
    requires Sane(s) && Flowing(s) && Enabled(s, Advance)
    ensures Flowing(Next(s, Advance))
  {
    AdvanceTidy(s);
    var t := Next(s, Advance);
    assert forall i :: 0 <= i < |t.bufs| - 1 ==> t.bufs[i] == s.bufs[i + 1];
    if s.tail > 1 { assert Bytes(s.bufs[1]) != []; }
  }

  lemma StepAccepts(s: Sender, op: Op)
    requires Sane(s) && s.bufs != [] && Enabled(s, op) && !op.Initialize? && !op.Clear?
    ensures var next := Next(s, op);
            && Sane(next) && next.bufs != [] && s.posts <= next.posts
            && Payloads(next.accepted) == Payloads(s.accepted) + Taken(op)
            && (Flowing(s) ==> Flowing(next))
  {
    StepKeeps(s, op);
    if Flowing(s) { StepFlows(s, op); }
  }

  lemma {:induction false} RunAccepts(s: Sender, run: seq<Op>)
    requires Sane(s) && s.bufs != [] && Legal(s, run) && Within(run)
    ensures var t := After(s, run);
            && Sane(t) && t.bufs != [] && s.posts <= t.posts
            && Payloads(t.accepted) == Payloads(s.accepted) + Sent(run)
            && (Flowing(s) ==> Flowing(t))
    decreases |run|
  {
    if run != [] {
      assert !run[0].Initialize? && !run[0].Clear?;
      StepAccepts(s, run[0]);
      RunAccepts(Next(s, run[0]), run[1..]);
      Assoc(Payloads(s.accepted), Taken(run[0]), Sent(run[1..]));
    }
  }

  /** The start of a connection, as Initialize leaves it with no send under way. */
  ghost predicate Begun(s: Sender) {
    Sane(s) && s.bufs != [] && !s.pending
  }

  /** What has been handed over since a connection began. */
  function Since(s: Sender, t: Sender): seq<seq<Item>>
    requires s.posts <= t.posts
  {
    t.posts[|s.posts|..]
  }

  /** However the calls of Send and the completions interleave within a connection, the packets
      handed to the kernel are a front part of those Initialize found and those sent, whole and in
      order, and the remainder is in the buffers; if Initialize found no bytes, none are left whenever
      no send is pending. */
  lemma PostedIsFrontOfSent(s: Sender, run: seq<Op>)
    requires Begun(s) && Legal(s, run) && Within(run)
    ensures var t := After(s, run);
            && Sane(t) && s.posts <= t.posts
            && Payloads(Concat(s.bufs)) + Sent(run) == Payloads(Concat(Since(s, t)) + Concat(Unposted(t)))
            && (Flowing(s) && !t.pending ==> Bytes(Concat(Unposted(t))) == [])
  {
    RunAccepts(s, run);
    var t := After(s, run);
    SinceIs(s, t);
    Assoc(Concat(s.posts), Concat(Since(s, t)), Concat(Unposted(t)));
    PayloadsCancel(Concat(s.posts), Concat(s.bufs), Concat(Since(s, t)) + Concat(Unposted(t)), Sent(run));
    if Flowing(s) && !t.pending { NoneLeft(t); }
  }

  lemma SinceIs(s: Sender, t: Sender)
    requires s.posts <= t.posts
    ensures Concat(t.posts) == Concat(s.posts) + Concat(Since(s, t))
  {
    assert t.posts == s.posts + Since(s, t);
    ConcatAppend(s.posts, Since(s, t));
  }

  lemma NoneLeft(t: Sender)
    requires Sane(t) && t.bufs != [] && Flowing(t) && !t.pending
    ensures Bytes(Concat(Unposted(t))) == []
  {
    NoneConcat(t.bufs[1..]);
    assert Concat(t.bufs) == t.bufs[0] + [] == t.bufs[0];
  }

  lemma PayloadsCancel(y: seq<Item>, a: seq<Item>, b: seq<Item>, sent: seq<seq<Byte>>)
    requires Payloads(y + b) == Payloads(y + a) + sent
    ensures Payloads(b) == Payloads(a) + sent
  {
    assert Payloads(y + a) == Payloads(y) + Payloads(a) && Payloads(y + b) == Payloads(y) + Payloads(b);
    Assoc(Payloads(y), Payloads(a), sent);
    assert (Payloads(y) + Payloads(b))[|y|..] == Payloads(b);
    assert (Payloads(y) + (Payloads(a) + sent))[|y|..] == Payloads(a) + sent;
  }

  // ---- How much is gathered ----

  /** A buffer had no room for the first packet of the next. */
  predicate FullFor(bufs: seq<seq<Item>>, i: nat) {
    i + 1 < |bufs| && bufs[i + 1] != [] && 32500 <= |Bytes(bufs[i])| + |bufs[i + 1][0].bytes|
  }

  /** So it is with every buffer between the head, which is on its way, and the tail. */
  ghost predicate Packed(s: Sender) {
    forall i :: 0 < i < s.tail ==> FullFor(s.bufs, i)
  }

  lemma FullKept(bufs: seq<seq<Item>>, tail: nat, item: Item, i: nat)
    requires tail < |bufs| && |item.bytes| < MAX_SIZE && forall k :: tail < k < |bufs| ==> bufs[k] == []
    requires i < tail && FullFor(bufs, i)
    ensures FullFor(Put(bufs, tail, item).0, i)
  {
    PutIs(bufs, tail, item);
  }

  lemma FullThen(bufs: seq<seq<Item>>, tail: nat, item: Item)
    requires tail < |bufs| && |item.bytes| < MAX_SIZE && forall k :: tail < k < |bufs| ==> bufs[k] == []
    requires !FitsAt(bufs, tail, |item.bytes|)
    ensures FullFor(Put(bufs, tail, item).0, tail)
  {
    PutIs(bufs, tail, item);
  }

  lemma SendPacks(s: Sender, p: seq<Byte>)
    requires Sane(s) && Flowing(s) && Packed(s) && !s.locked && s.bufs != [] && |p| < MAX_SIZE
    ensures Packed(Next(s, Send(p)))
  {
    var item := Item(|s.accepted|, p);
    PutIs(s.bufs, s.tail, item);
    var t := Next(s, Send(p));
    if s.pending {
      forall i | 0 < i < t.tail ensures FullFor(t.bufs, i) {
        if i < s.tail { FullKept(s.bufs, s.tail, item, i); } else { FullThen(s.bufs, s.tail, item); }
      }
    }
  }

  lemma AdvancePacks(s: Sender)
    requires Sane(s) && Flowing(s) && Packed(s) && Enabled(s, Advance)
    ensures Packed(Next(s, Advance))
  {
    AdvanceTidy(s);
    var t := Next(s, Advance);
    forall i | 0 < i < t.tail ensures FullFor(t.bufs, i) { assert FullFor(s.bufs, i + 1); }
  }

  /** Every step keeps that which does not cut into a send, from a state in which no bytes lie queued
      with no send pending; and it adds a buffer only if the tail has come to the last one. */
  lemma StepPacks(s: Sender, op: Op)
    requires Sane(s) && Flowing(s) && Packed(s) && Enabled(s, op) && !Cuts(s, op)
    ensures Packed(Next(s, op))
    ensures s.bufs != [] && |Next(s, op).bufs| > |s.bufs| ==> Next(s, op).tail == |s.bufs| == |Next(s, op).bufs| - 1
  {
    match op {
      case Send(p) =>
        if s.bufs != [] && |p| < MAX_SIZE {
          SendPacks(s, p);
          PutIs(s.bufs, s.tail, Item(|s.accepted|, p));
        }
      case Advance => AdvancePacks(s);
      case Release =>
        var bufs := s.bufs[0 := []];
        forall i | 0 < i < s.tail ensures FullFor(bufs, i) { assert FullFor(s.bufs, i); }
      case _ =>
    }
  }

  lemma {:induction false} RunPacks(s: Sender, run: seq<Op>)
    requires Sane(s) && s.bufs != [] && Flowing(s) && Packed(s) && Legal(s, run) && Within(run)
    ensures Packed(After(s, run))
    decreases |run|
  {
    if run != [] {
      assert !run[0].Initialize? && !run[0].Clear?;
      StepAccepts(s, run[0]);
      StepPacks(s, run[0]);
      RunPacks(Next(s, run[0]), run[1..]);
    }
  }

  /** Packets are gathered: in every interleaving within a connection that began with no bytes in the
      buffers, the tail has moved on, but from the head, only from a buffer that had no room for the
      next packet. */
  lemma TailMovesOnlyWhenFull(s: Sender, run: seq<Op>, i: nat)
    requires Begun(s) && Flowing(s) && Legal(s, run) && Within(run) && 0 < i < After(s, run).tail
    ensures var bufs := After(s, run).bufs;
            && i + 1 < |bufs| && bufs[i + 1] != []
            && 32500 <= |Bytes(bufs[i])| + |bufs[i + 1][0].bytes|
  {
    RunPacks(s, run);
    assert FullFor(After(s, run).bufs, i);
  }

  // ---- From one connection to the next ----

  /** From a cleared state in which nothing is pending, what is pending later has a buffer of its
      own to be gathered behind. */
  lemma {:induction false} PendingPastHead(s: Sender, run: seq<Op>)
    requires Sane(s) && s.bufs != [] && Legal(s, run) && Within(run) && (s.pending ==> s.tail > 0)
    ensures var t := After(s, run); t.pending ==> t.tail > 0
    decreases |run|
  {
    if run != [] {
      assert !run[0].Initialize? && !run[0].Clear?;
      StepAccepts(s, run[0]);
      PendingPastHead(Next(s, run[0]), run[1..]);
    }
  }

  /** Once a send has been refused, or cleared away after that, sends only fill the buffers. */
  lemma {:induction false} RefusedFills(s: Sender, run: seq<Op>)
    requires Sane(s) && s.bufs != [] && Legal(s, run) && Within(run)
    requires s.pending && UnderWay(s) == 0 && (s.tail > 0 ==> Bytes(s.bufs[0]) != [])
    ensures var t := After(s, run);
            && Sane(t) && t.bufs != [] && t.pending && UnderWay(t) == 0 && t.posts == s.posts
            && (t.tail > 0 ==> Bytes(t.bufs[0]) != [])
    decreases |run|
  {
    if run != [] {
      assert !run[0].Initialize? && !run[0].Clear?;
      StepAccepts(s, run[0]);
      if run[0].Send? && |run[0].packet| < MAX_SIZE {
        PutAdds(s.bufs, s.tail, Item(|s.accepted|, run[0].packet));
      }
      RefusedFills(Next(s, run[0]), run[1..]);
    }
  }

  lemma {:induction false} PendingAlone(s: Sender, run: seq<Op>)
    requires Sane(s) && s.bufs != [] && Legal(s, run) && Within(run)
    requires s.pending && UnderWay(s) == 0
    ensures var t := After(s, run); Sane(t) && t.pending && UnderWay(t) == 0 && t.posts == s.posts
    decreases |run|
  {
    if run != [] {
      assert !run[0].Initialize? && !run[0].Clear?;
      StepAccepts(s, run[0]);
      PendingAlone(Next(s, run[0]), run[1..]);
    }
  }

  /** A refused send is not tried again: from then on nothing is handed to the kernel until the next
      Initialize, and what is sent stays in the buffers behind what was refused. */
  lemma RefusedIsFinal(s: Sender, run: seq<Op>)
    requires Sane(s) && s.toPost == 1 && Legal(Next(s, Fail), run) && Within(run)
    ensures var t := After(Next(s, Fail), run);
            && t.pending && t.posts == s.posts
            && Payloads(t.accepted) == Payloads(Concat(s.posts) + Concat(s.bufs)) + Sent(run)
            && Payloads(t.accepted) == Payloads(Concat(s.posts) + Concat(t.bufs))
  {
    StepKeeps(s, Fail);
    RunAccepts(Next(s, Fail), run);
    PendingAlone(Next(s, Fail), run);
  }

  lemma {:induction false} NoBytesIff(ps: seq<seq<Byte>>)
    ensures Concat(ps) == [] <==> forall k :: 0 <= k < |ps| ==> ps[k] == []
  {
    if ps != [] { NoBytesIff(ps[1..]); }
  }

  /** What the next connection's Initialize finds is what was sent since Clear and not posted. With no
      send under way at either, and from a Clear with nothing pending, that connection starts flowing
      exactly when nothing is pending at Initialize; from a Clear with a refused send pending, exactly
      when every packet sent since is empty. */
  lemma NextConnection(s: Sender, run: seq<Op>)
    requires Sane(s) && s.bufs != [] && UnderWay(s) == 0
    requires Legal(Next(s, Clear), run) && Within(run) && UnderWay(After(Next(s, Clear), run)) == 0
    ensures var t := After(Next(s, Clear), run);
            var next := Next(t, Initialize);
            && Begun(next)
            && Sent(run) == Payloads(Concat(t.posts) + Concat(next.bufs))
            && (if s.pending then Flowing(next) <==> forall k :: 0 <= k < |Sent(run)| ==> Sent(run)[k] == []
                else Flowing(next) <==> !t.pending)
  {
    var c := Next(s, Clear);
    StepKeeps(s, Clear);
    assert Bytes([]) == [] && Flowing(c) && Payloads([]) == [];
    RunAccepts(c, run);
    var t := After(c, run);
    assert [] + Sent(run) == Sent(run);
    StepKeeps(t, Initialize);
    StepFlows(t, Initialize);
    if s.pending {
      RefusedFills(c, run);
      RefusedIff(t);
      NoBytesIff(Sent(run));
    } else {
      PendingPastHead(c, run);
    }
  }

  lemma RefusedIff(t: Sender)
    requires Sane(t) && t.bufs != [] && t.posts == [] && UnderWay(t) == 0 && (t.tail > 0 ==> Bytes(t.bufs[0]) != [])
    ensures Bytes(t.accepted) == [] <==> t.tail == 0 && Bytes(t.bufs[0]) == []
  {
    assert t.accepted == [] + Concat(t.bufs) == Concat(t.bufs);
    ConcatAround(t.bufs, 0);
    assert [] + t.bufs[0] == t.bufs[0];
    BytesAppend(t.bufs[0], Concat(t.bufs[1..]));
    if t.tail == 0 {
      NoneConcat(t.bufs[1..]);
      assert Bytes([]) == [];
    }
  }

  /** And what is found does go out: in front of the next connection's first packet. */
  lemma FoundGoesOutFirst(s: Sender, p: seq<Byte>)
    requires Begun(s) && !s.locked && |p| < MAX_SIZE
    ensures var t := Next(s, Send(p));
            && Sane(t) && Enabled(t, Post) && s.bufs[0] <= t.bufs[0]
            && Next(t, Post).posts == s.posts + [t.bufs[0]]
  {
    SendKeeps(s, p);
    PutIs(s.bufs, s.tail, Item(|s.accepted|, p));
  }

  // ---- Draining ----

  function Filled(bufs: seq<seq<Item>>): nat {
    if bufs == [] then 0 else (if Bytes(bufs[0]) == [] then 0 else 1) + Filled(bufs[1..])
  }

  /** The completion steps still to come. */
  ghost function Left(s: Sender): nat
    requires Sane(s)
  {
    if UnderWay(s) == 0 then 0 else 3 * (1 + Filled(s.bufs[1..])) - s.flying - 2 * s.emptied
  }

  /** The step that is due while a send is under way. */
  function Due(s: Sender): Op
    requires UnderWay(s) == 1
  {
    if s.toPost == 1 then Post else if s.flying == 1 then Release else Advance
  }

  predicate Completes(op: Op) { op.Post? || op.Release? || op.Advance? }

  lemma {:induction false} FilledLast(bufs: seq<seq<Item>>)
    ensures Filled(bufs + [[]]) == Filled(bufs)
  {
    if bufs == [] {
      assert (bufs + [[]])[1..] == [] && Bytes([]) == [];
    } else {
      assert (bufs + [[]])[1..] == bufs[1..] + [[]];
      FilledLast(bufs[1..]);
    }
  }

  lemma {:induction false} NoneFilled(bufs: seq<seq<Item>>)
    requires forall i :: 0 <= i < |bufs| ==> Bytes(bufs[i]) == []
    ensures Filled(bufs) == 0
  {
    if bufs != [] { NoneFilled(bufs[1..]); }
  }

  lemma AdvanceLeft(s: Sender)
    requires Sane(s) && Flowing(s) && Enabled(s, Advance)
    ensures Sane(Next(s, Advance)) && Left(Next(s, Advance)) == Left(s) - 1
  {
    AdvanceKeeps(s);
    AdvanceTidy(s);
    var t := Next(s, Advance);
    assert s.bufs[1..] != [] && t.bufs[0] == s.bufs[1] && t.bufs[1..] == s.bufs[1..][1..] + [[]];
    FilledLast(s.bufs[1..][1..]);
    if Bytes(s.bufs[1]) == [] {
      assert s.tail == 1 && Bytes([]) == [];
      NoneFilled(s.bufs[1..]);
    }
  }

  /** While a send is under way exactly one completion step is due, it can be taken once the lock is
      free, and it is one step nearer to the end. */
  lemma OneStepNearer(s: Sender, op: Op)
    requires Sane(s) && Flowing(s) && s.bufs != [] && Completes(op) && !s.locked
    ensures Enabled(s, op) <==> UnderWay(s) == 1 && op == Due(s)
    ensures Enabled(s, op) ==>
              && Sane(Next(s, op)) && Flowing(Next(s, op)) && Next(s, op).bufs != [] && !Next(s, op).locked
              && Left(Next(s, op)) == Left(s) - 1
  {
    if Enabled(s, op) {
      StepAccepts(s, op);
      if op == Release {
        assert s.bufs[0 := []][1..] == s.bufs[1..];
      } else if op == Advance {
        AdvanceLeft(s);
      }
    }
  }

  /** Once no more is sent, and as long as the kernel refuses nothing, the completions post
      everything and end, in a number of steps known beforehand. */
  lemma {:induction false} CompletionsDrain(s: Sender, run: seq<Op>)
    requires Sane(s) && Flowing(s) && s.bufs != [] && !s.locked
    requires Legal(s, run) && forall k :: 0 <= k < |run| ==> Completes(run[k])
    ensures |run| <= Left(s)
    ensures |run| == Left(s) <==> UnderWay(After(s, run)) == 0
    decreases |run|
  {
    if run != [] {
      assert Completes(run[0]);
      OneStepNearer(s, run[0]);
      CompletionsDrain(Next(s, run[0]), run[1..]);
    }
  }
}
