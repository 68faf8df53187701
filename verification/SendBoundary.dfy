/** Initialize and Clear while a send of the session is under way: exactly then packets can go to the
    kernel twice, or out of order. */
module SendBoundary {
  import opened PacketStream
  import opened SendQueue
  import opened SendOrder

  /** However the calls of Send and the completions go on, what is handed to the kernel stays a front
      part of what was accepted. */
  ghost predicate InOrder(s: Sender) {
    forall run :: Legal(s, run) && Within(run) ==> FrontPart(After(s, run))
  }

  lemma SaneIsInOrder(s: Sender)
    requires Sane(s)
    ensures InOrder(s)
  {
    forall run | Legal(s, run) && Within(run) ensures FrontPart(After(s, run)) {
      WithinIsUncut(s, run);
      RunKeeps(s, run);
      if run == [] { assert Concat(s.posts) <= s.accepted; }
    }
  }

  lemma Cons(s: Sender, op: Op, rest: seq<Op>)
    requires Shaped(s) && Enabled(s, op) && Legal(Next(s, op), rest)
    ensures Legal(s, [op] + rest) && After(s, [op] + rest) == After(Next(s, op), rest)
    ensures Within(rest) && !op.Initialize? && !op.Clear? ==> Within([op] + rest)
  {
    assert ([op] + rest)[1..] == rest;
  }

  // ---- Doubled ----

  lemma Doubled(t: Sender, y: seq<Item>, a: seq<Item>)
    requires Numbered(t.accepted) && a != [] && y + a <= t.accepted && Concat(t.posts) == y + a + a
    ensures !FrontPart(t)
  {
    var twice := y + a + a;
    assert twice[|y|] == a[0] && twice[|y| + |a|] == a[0] && (y + a)[|y|] == a[0];
    if |twice| <= |t.accepted| { assert t.accepted[|y| + |a|] != t.accepted[|y|]; }
  }

  /** Two threads stand between the lock and the post: both post the head buffer. */
  lemma TwoPosters(s: Sender) returns (run: seq<Op>)
    requires Shaped(s) && s.toPost >= 2 && s.bufs[0] != [] && Numbered(s.accepted)
    requires Concat(s.posts) + s.bufs[0] <= s.accepted
    ensures Legal(s, run) && Within(run) && !FrontPart(After(s, run))
  {
    run := [Post] + ([Post] + []);
    var s1 := Next(s, Post);
    var s2 := Next(s1, Post);
    Cons(s1, Post, []);
    Cons(s, Post, [Post] + []);
    ConcatLast(s.posts, s.bufs[0]);
    ConcatLast(s1.posts, s.bufs[0]);
    Doubled(s2, Concat(s.posts), s.bufs[0]);
  }

  /** A sender that finds nothing pending becomes a poster of the head buffer. */
  lemma OnePoster(s: Sender, p: seq<Byte>)
    requires Shaped(s) && !s.pending && !s.locked && 0 < s.tail < |s.bufs| && |p| < MAX_SIZE
    ensures var t := Next(s, Send(p));
            && Shaped(t) && t.toPost == s.toPost + 1 && t.flying == s.flying && t.emptied == s.emptied
            && t.bufs[0] == s.bufs[0] && t.tail > 1 && t.pending && !t.locked && t.posts == s.posts
            && t.accepted == s.accepted + [Item(|s.accepted|, p)]
  {
    StepShapes(s, Send(p));
    PutFront(s.bufs, s.tail, Item(|s.accepted|, p));
  }

  lemma {:induction false} PutFront(bufs: seq<seq<Item>>, tail: nat, item: Item)
    requires tail < |bufs|
    ensures var (after, end) := Put(bufs, tail, item);
            |after| >= |bufs| && after[end] != [] && forall i :: 0 <= i < tail ==> after[i] == bufs[i]
    decreases |bufs| - tail
  {
    if !FitsAt(bufs, tail, |item.bytes|) && tail + 1 < |bufs| { PutFront(bufs, tail + 1, item); }
  }

  lemma InitializeBreaksToPost(s: Sender) returns (run: seq<Op>)
    requires Sane(s) && !s.locked && s.toPost == 1
    ensures var t := Next(s, Initialize);
            Legal(t, run) && Within(run) && !FrontPart(After(t, run))
  {
    var t := Next(s, Initialize);
    OnePoster(t, []);
    var t1 := Next(t, Send([]));
    assert Concat(s.bufs) == s.bufs[0] + Concat(s.bufs[1..]);
    Assoc(Concat(s.posts), s.bufs[0], Concat(s.bufs[1..]));
    run := TwoPosters(t1);
    Cons(t, Send([]), run);
    run := [Send([])] + run;
  }

  /** While the kernel has a send, the buffer last handed over is the head buffer. */
  lemma LastPosted(s: Sender) returns (y: seq<Item>)
    requires Sane(s) && s.flying == 1
    ensures Concat(s.posts) == y + s.bufs[0] && y + s.bufs[0] <= s.accepted
  {
    var before := s.posts[..|s.posts| - 1];
    y := Concat(before);
    assert s.posts == before + [s.bufs[0]];
    ConcatLast(before, s.bufs[0]);
  }

  lemma InitializeBreaksFlying(s: Sender) returns (run: seq<Op>)
    requires Sane(s) && !s.locked && s.flying == 1
    ensures var t := Next(s, Initialize);
            Legal(t, run) && Within(run) && !FrontPart(After(t, run))
  {
    var t := Next(s, Initialize);
    OnePoster(t, []);
    var t1 := Next(t, Send([]));
    var t2 := Next(t1, Post);
    var y := LastPosted(s);
    ConcatLast(s.posts, s.bufs[0]);
    Doubled(t2, y, s.bufs[0]);
    run := [Send([])] + ([Post] + []);
    Cons(t1, Post, []);
    Cons(t, Send([]), [Post] + []);
  }

  /** A completion that has emptied its buffer moves the head on; the next buffer holds packets that
      have not been posted. */
  lemma MovesOn(s: Sender)
    requires Shaped(s) && s.emptied == 1 && s.flying == 0 && !s.locked && s.tail > 1 && s.bufs[1] != []
    ensures var t := Next(s, Advance);
            && Shaped(t) && t.bufs[0] == s.bufs[1] && t.tail > 0 && t.flying == t.emptied == 0 && !t.locked
            && t.posts == s.posts && t.accepted == s.accepted
            && (t.toPost == s.toPost + 1 || (t.toPost == s.toPost && !t.pending))
  {
    StepShapes(s, Advance);
  }

  lemma InitializeBreaksEmptied(s: Sender) returns (run: seq<Op>)
    requires Sane(s) && !s.locked && s.emptied == 1
    ensures var t := Next(s, Initialize);
            Legal(t, run) && Within(run) && !FrontPart(After(t, run))
  {
    var t := Next(s, Initialize);
    var p: seq<Byte> := [];
    var item := Item(|s.accepted|, p);
    OnePoster(t, p);
    PutAdds(s.bufs, s.tail, item);
    PutAddsBehind(s.bufs, s.tail, item);
    var t1 := Next(t, Send(p));
    WithNextSame(Put(s.bufs, s.tail, item).0, Put(s.bufs, s.tail, item).1);
    assert t1.bufs[1] != [];
    MovesOn(t1);
    var t2 := Next(t1, Advance);
    NextInLine(s, t1);
    if t2.toPost == 2 {
      run := TwoPosters(t2);
    } else {
      OnePoster(t2, p);
      run := TwoPosters(Next(t2, Send(p)));
      Cons(t2, Send(p), run);
      run := [Send(p)] + run;
    }
    Cons(t1, Advance, run);
    Cons(t, Send(p), [Advance] + run);
    run := [Send(p)] + ([Advance] + run);
  }

  /** The packets of the second buffer are the next to be handed over. */
  lemma NextInLine(s: Sender, t: Sender)
    requires Sane(s) && s.emptied == 1 && !s.locked && t == Next(Next(s, Initialize), Send([])) && |t.bufs| > 1
    ensures Concat(t.posts) + t.bufs[1] <= t.accepted && Numbered(t.accepted)
  {
    var item := Item(|s.accepted|, []);
    PutAddsBehind(s.bufs, s.tail, item);
    var (bufs, tail) := Put(s.bufs, s.tail, item);
    assert t.bufs[1] == bufs[1];
    assert Concat(bufs[1..]) == bufs[1] + Concat(bufs[2..]) by { assert bufs[1..][1..] == bufs[2..]; }
    Assoc(Concat(s.posts), Concat(s.bufs[1..]), [item]);
    Assoc(Concat(s.posts), bufs[1], Concat(bufs[2..]));
  }

  // ---- Lost ----

  /** The first packet fills the head buffer, so that the second goes into the next one. */
  lemma FillTwo(s: Sender, big: seq<Byte>, small: seq<Byte>)
    requires Shaped(s) && s.pending && !s.locked && s.tail == 0 && |s.bufs| > 1 && s.accepted == []
    requires s.bufs[0] == [] && s.bufs[1] == []
    requires |big| < MAX_SIZE && |small| < MAX_SIZE && MAX_SIZE <= |big| + |small|
    ensures var t := Next(s, Send(big));
            && Shaped(t) && !t.locked
            && var u := Next(t, Send(small));
               && Shaped(u) && u == s.(bufs := u.bufs, tail := 1, accepted := [Item(0, big), Item(1, small)])
               && |u.bufs| == |s.bufs| && u.bufs[0] == [Item(0, big)] && u.bufs[1] == [Item(1, small)]
  {
    var t := Next(s, Send(big));
    StepShapes(s, Send(big));
    StepShapes(t, Send(small));
    BytesLast([], Item(0, big));
    assert [] + [Item(0, big)] == [Item(0, big)] && [] + big == big && Bytes([]) == [];
    assert t.bufs == s.bufs[0 := [Item(0, big)]] && t.bufs[1] == [];
    assert FitsAt(t.bufs, 1, |small|) && !FitsAt(t.bufs, 0, |small|);
    assert Put(t.bufs, 1, Item(1, small)) == (AddAt(t.bufs, 1, Item(1, small)), 1);
    assert [Item(0, big)] + [Item(1, small)] == [Item(0, big), Item(1, small)];
  }

  /** The head moves on past the first packet, and the second is posted without it. */
  lemma SecondAlone(s: Sender, a: Item, b: Item)
    requires Shaped(s) && !s.locked && s.emptied == 1 && s.toPost == 0 && s.tail == 1 && |s.bufs| > 1
    requires s.bufs[1] == [b] && b.bytes != [] && s.accepted == [a, b] && a != b && Concat(s.posts) == []
    ensures var run := [Advance] + ([Post] + []);
            Legal(s, run) && Within(run) && !FrontPart(After(s, run))
  {
    var t := Next(s, Advance);
    StepShapes(s, Advance);
    BytesLast([], b);
    assert [] + [b] == [b] && Bytes([]) == [] && [] + b.bytes == b.bytes;
    assert t.bufs[0] == [b] && t.toPost == 1;
    var u := Next(t, Post);
    ConcatLast(t.posts, [b]);
    assert Concat(u.posts) == [b] && u.accepted[0] == a;
    Cons(t, Post, []);
    Cons(s, Advance, [Post] + []);
  }

  /** With the head buffer posted, or completed, and emptied by Clear behind its back. */
  lemma LosesFirst(s: Sender) returns (run: seq<Op>)
    requires Shaped(s) && s.pending && !s.locked && s.tail == 0 && |s.bufs| > 1 && s.accepted == []
    requires s.bufs[0] == [] && s.bufs[1] == [] && Concat(s.posts) == []
    requires s.toPost == 0 && s.flying + s.emptied == 1
    ensures Legal(s, run) && Within(run) && !FrontPart(After(s, run))
  {
    var big, small: seq<Byte> := seq(MAX_SIZE - 1, _ => 0), [0];
    FillTwo(s, big, small);
    var t := Next(s, Send(big));
    var u := Next(t, Send(small));
    run := [Advance] + ([Post] + []);
    if s.flying == 1 {
      StepShapes(u, Release);
      SecondAlone(Next(u, Release), Item(0, big), Item(1, small));
      Cons(u, Release, run);
      run := [Release] + run;
    } else {
      SecondAlone(u, Item(0, big), Item(1, small));
    }
    Cons(t, Send(small), run);
    Cons(s, Send(big), [Send(small)] + run);
    run := [Send(big)] + ([Send(small)] + run);
  }

  lemma ClearBreaks(s: Sender) returns (run: seq<Op>)
    requires Sane(s) && !s.locked && UnderWay(s) == 1
    ensures var t := Next(s, Clear);
            Legal(t, run) && Within(run) && !FrontPart(After(t, run))
  {
    var t := Next(s, Clear);
    StepShapes(s, Clear);
    if s.toPost == 1 {
      var t1 := Next(t, Post);
      ConcatLast([], t.bufs[0]);
      assert t1.posts == [[]] && [] + [[]] == t1.posts;
      run := LosesFirst(t1);
      Cons(t, Post, run);
      run := [Post] + run;
    } else {
      run := LosesFirst(t);
    }
  }

  // ---- Exactly when ----

  /** From a state in order, with the lock free, Initialize or Clear leaves every continuation in
      order exactly if no send stands between its lock and its completion. */
  lemma BoundaryIff(s: Sender, op: Op)
    requires Sane(s) && !s.locked && (op.Initialize? || op.Clear?) && Enabled(s, op)
    ensures InOrder(Next(s, op)) <==> UnderWay(s) == 0
  {
    if UnderWay(s) == 0 {
      StepKeeps(s, op);
      SaneIsInOrder(Next(s, op));
    } else if op.Clear? {
      var run := ClearBreaks(s);
    } else if s.toPost == 1 {
      var run := InitializeBreaksToPost(s);
    } else if s.flying == 1 {
      var run := InitializeBreaksFlying(s);
    } else {
      var run := InitializeBreaksEmptied(s);
    }
  }

  /** In every state of the run, every continuation is in order. */
  ghost predicate AlwaysInOrder(s: Sender, run: seq<Op>)
    requires Legal(s, run)
    decreases |run|
  {
    InOrder(s) && (run != [] ==> AlwaysInOrder(Next(s, run[0]), run[1..]))
  }

  lemma {:induction false} UncutIff(s: Sender, run: seq<Op>)
    requires Sane(s) && Legal(s, run) && !After(s, run).locked
    ensures AlwaysInOrder(s, run) <==> Uncut(s, run)
    decreases |run|
  {
    SaneIsInOrder(s);
    if run != [] {
      StaysLocked(s, run);
      var next := Next(s, run[0]);
      if Cuts(s, run[0]) {
        BoundaryIff(s, run[0]);
        assert !InOrder(next);
      } else {
        StepKeeps(s, run[0]);
        UncutIff(next, run[1..]);
      }
    }
  }

  lemma {:induction false} StaysLocked(s: Sender, run: seq<Op>)
    requires Legal(s, run)
    ensures s.locked ==> After(s, run).locked
    decreases |run|
  {
    if run != [] {
      StepLocks(s, run[0]);
      StaysLocked(Next(s, run[0]), run[1..]);
    }
  }

  /** Over all connections of a session, and as long as no call keeps the lock: what is handed to the
      kernel since the last Clear is at every moment, and however things go on, a front part of what
      was accepted, each packet once and in order, if and only if no Initialize and no Clear comes
      while a send stands between its lock and its completion. */
  lemma HandedOnceIff(s: Sender, run: seq<Op>)
    requires Unused(s) && Legal(s, run) && !After(s, run).locked
    ensures AlwaysInOrder(s, run) <==> Uncut(s, run)
  {
    assert Sane(s);
    UncutIff(s, run);
  }

  // ---- The two shortest ways ----

  /** A thread has left the lock to post; Clear and the next connection's Initialize come first; then
      the next connection's first packet is posted by both threads. */
  lemma SentTwiceAcrossClear(s: Sender, p: seq<Byte>, q: seq<Byte>)
    requires Unused(s) && |p| < MAX_SIZE && |q| < MAX_SIZE
    ensures var first := [Initialize] + ([Send(p)] + ([Clear] + ([Initialize] + [])));
            var last := [Send(q)] + ([Post] + ([Post] + []));
            && Legal(s, first) && Legal(After(s, first), last)
            && var t := After(After(s, first), last);
               t.accepted == [Item(0, q)] && t.posts == [[Item(0, q)]] + [[Item(0, q)]]
  {
    var s1 := Next(s, Initialize);
    StepShapes(s, Initialize);
    FirstSend(s1, p);
    var s2 := Next(s1, Send(p));
    var s3 := Next(s2, Clear);
    StepShapes(s2, Clear);
    var s4 := Next(s3, Initialize);
    Cons(s3, Initialize, []);
    Cons(s2, Clear, [Initialize] + []);
    Cons(s1, Send(p), [Clear] + ([Initialize] + []));
    Cons(s, Initialize, [Send(p)] + ([Clear] + ([Initialize] + [])));
    FirstSend(s4, q);
    var s5 := Next(s4, Send(q));
    var s6 := Next(s5, Post);
    Cons(s6, Post, []);
    Cons(s5, Post, [Post] + []);
    Cons(s4, Send(q), [Post] + ([Post] + []));
  }

  /** A send is in flight when Initialize forgets that it is pending; the next sender posts its buffer
      again. */
  lemma SentTwiceAcrossInitialize(s: Sender, p: seq<Byte>, q: seq<Byte>)
    requires Unused(s) && |p| < MAX_SIZE && |q| < MAX_SIZE
    ensures var first := [Initialize] + ([Send(p)] + ([Post] + ([Initialize] + [])));
            var last := [Send(q)] + ([Post] + []);
            && Legal(s, first) && Legal(After(s, first), last)
            && var t := After(After(s, first), last);
               t.accepted == [Item(0, p), Item(1, q)] && t.posts == [[Item(0, p)]] + [[Item(0, p)]]
  {
    var s1 := Next(s, Initialize);
    StepShapes(s, Initialize);
    FirstSend(s1, p);
    var s2 := Next(s1, Send(p));
    var s3 := Next(s2, Post);
    var s4 := Next(s3, Initialize);
    Cons(s3, Initialize, []);
    Cons(s2, Post, [Initialize] + []);
    Cons(s1, Send(p), [Post] + ([Initialize] + []));
    Cons(s, Initialize, [Send(p)] + ([Post] + ([Initialize] + [])));
    assert [] + s2.posts == s2.posts && s3.posts == [[Item(0, p)]];
    OnePoster(s4, q);
    var s5 := Next(s4, Send(q));
    assert [Item(0, p)] + [Item(1, q)] == [Item(0, p), Item(1, q)];
    Cons(s5, Post, []);
    Cons(s4, Send(q), [Post] + []);
  }

  /** The first packet into empty buffers. */
  lemma FirstSend(s: Sender, p: seq<Byte>)
    requires Shaped(s) && !s.pending && !s.locked && s.bufs != [] && s.tail == 0 && s.bufs[0] == []
    requires s.accepted == [] && |p| < MAX_SIZE
    ensures var t := Next(s, Send(p));
            && Shaped(t) && t.bufs[0] == [Item(0, p)] && t.tail == 1 && t.pending && t.toPost == s.toPost + 1
            && t == s.(bufs := t.bufs, tail := 1, pending := true, toPost := t.toPost, accepted := [Item(0, p)])
  {
    StepShapes(s, Send(p));
    assert Bytes([]) == [] && [] + [Item(0, p)] == [Item(0, p)];
  }
}
