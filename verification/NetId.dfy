/** Session identifiers under any interleaving: NewNetId, Id and the lookup by identifier. */
module NetId {
  import opened Wrappers

  /** 2^16, the range of a USHORT, and the weight of the upper half of a NetId. */
  const HALF := 0x1_0000

  predicate IsUShort(n: int) { 0 <= n < HALF }

  /** `(high << 16) | (USHORT)netId`, read as an unsigned 32-bit number. */
  function Joined(high: int, netId: int): int { high * HALF + netId % HALF }

  function IdOf(netId: int): int { netId % HALF }

  /** The static counter inside NewNetId, shared by every session. */
  class IdCounter {
    var id: int

    constructor (seed: int)
      requires IsUShort(seed)
      ensures id == seed
    {
      id := seed;
    }
  }

  // ---- NewNetId as a step machine ----

  /** Where the call of NewNetId on a session stands: `++id` is a plain load and a plain store of
      the shared counter, its value is the one stored or what the counter holds when it is read
      again, and only then the session's own field is written. `nth` counts the stores up to the one
      that left that value and `lost` is what they had lost by then. */
  datatype PC = Idle | Loaded(seen: int) | Stored(high: int, nth: nat, lost: nat)

  datatype Session = Session(index: int, netId: int, pc: PC)

  /** The counter and every session constructed so far, in order of construction. The rest is
      history: how many stores there have been, and by how much stores of stale loads have set
      the counter back. */
  datatype State = State(id: int, sessions: seq<Session>, stores: nat, lost: nat)

  /** One step of some thread. A session has at most one call of NewNetId at a time: its
      constructor's, then one for each connection accepted on it. */
  datatype Step = Construct(index: int) | Load(slot: nat) | Store(slot: nat) | Reload(slot: nat) | Write(slot: nat)

  function Start(seed: int): State { State(seed, [], 0, 0) }

  predicate Enabled(s: State, e: Step) {
    match e
    case Construct(index) => IsUShort(index)
    case Load(slot) => slot < |s.sessions| && s.sessions[slot].pc.Idle?
    case Store(slot) => slot < |s.sessions| && s.sessions[slot].pc.Loaded?
    case Reload(slot) => slot < |s.sessions| && s.sessions[slot].pc.Stored?
    case Write(slot) => slot < |s.sessions| && s.sessions[slot].pc.Stored?
  }

  function Goto(s: State, slot: nat, pc: PC): State
    requires slot < |s.sessions|
  {
    s.(sessions := s.sessions[slot := s.sessions[slot].(pc := pc)])
  }

  /** How far the counter has moved on since it was loaded. */
  function Behind(s: State, slot: nat): nat
    requires slot < |s.sessions| && s.sessions[slot].pc.Loaded?
  {
    (s.id - s.sessions[slot].pc.seen) % HALF
  }

  function Next(s: State, e: Step): State
    requires Enabled(s, e)
  {
    match e
    case Construct(index) => s.(sessions := s.sessions + [Session(index, index, Idle)])
    case Load(slot) => Goto(s, slot, Loaded(s.id))
    case Store(slot) =>
      var id := (s.sessions[slot].pc.seen + 1) % HALF;
      var lost := s.lost + Behind(s, slot);
      Goto(s.(id := id, stores := s.stores + 1, lost := lost), slot, Stored(id, s.stores + 1, lost))
    case Reload(slot) => Goto(s, slot, Stored(s.id, s.stores, s.lost))
    case Write(slot) =>
      var me := s.sessions[slot];
      s.(sessions := s.sessions[slot := Session(me.index, Joined(me.pc.high, me.netId), Idle)])
  }

  predicate Legal(s: State, run: seq<Step>)
    decreases |run|
  {
    run == [] || (Enabled(s, run[0]) && Legal(Next(s, run[0]), run[1..]))
  }

  function After(s: State, run: seq<Step>): State
    requires Legal(s, run)
    decreases |run|
  {
    if run == [] then s else After(Next(s, run[0]), run[1..])
  }

  /** A NetId as NewNetId returned it: to which session, at which store of the counter, and what
      had been lost by then. */
  datatype Grant = Grant(slot: nat, netId: int, nth: nat, lost: nat)

  function Granted(s: State, e: Step): seq<Grant>
    requires Enabled(s, e)
  {
    match e
    case Write(slot) =>
      var me := s.sessions[slot];
      [Grant(slot, Joined(me.pc.high, me.netId), me.pc.nth, me.pc.lost)]
    case _ => []
  }

  function Grants(s: State, run: seq<Step>): seq<Grant>
    requires Legal(s, run)
    decreases |run|
  {
    if run == [] then [] else Granted(s, run[0]) + Grants(Next(s, run[0]), run[1..])
  }

  // ---- What every step keeps ----

  /** The counter shows the seed and the stores since, less what was lost. */
  predicate Shows(seed: int, high: int, nth: nat, lost: nat) {
    high == (seed + nth - lost) % HALF
  }

  ghost predicate SessionKept(seed: int, s: State, me: Session) {
    && IsUShort(me.index) && IdOf(me.netId) == me.index
    && (me.pc.Loaded? ==> IsUShort(me.pc.seen))
    && (me.pc.Stored? ==> IsUShort(me.pc.high) && me.pc.nth <= s.stores && me.pc.lost <= s.lost
                          && Shows(seed, me.pc.high, me.pc.nth, me.pc.lost))
  }

  ghost predicate Inv(seed: int, s: State) {
    && IsUShort(s.id) && Shows(seed, s.id, s.stores, s.lost)
    && forall k :: 0 <= k < |s.sessions| ==> SessionKept(seed, s, s.sessions[k])
  }

  lemma StoreShows(seed: int, s: State, slot: nat)
    requires Inv(seed, s) && Enabled(s, Store(slot))
    ensures Shows(seed, (s.sessions[slot].pc.seen + 1) % HALF, s.stores + 1, s.lost + Behind(s, slot))
  {
    assert SessionKept(seed, s, s.sessions[slot]);
    SetBack(seed + s.stores - s.lost, s.id, s.sessions[slot].pc.seen);
  }

  lemma SetBack(total: int, id: int, seen: int)
    requires IsUShort(id) && IsUShort(seen) && id == total % HALF
    ensures (seen + 1) % HALF == (total + 1 - (id - seen) % HALF) % HALF
  {
    var back := (id - seen) % HALF;
    assert back == id - seen || back == id - seen + HALF;
  }

  lemma WriteKeepsId(high: int, netId: int)
    ensures IdOf(Joined(high, netId)) == IdOf(netId)
  {
  }

  lemma StepKeeps(seed: int, s: State, e: Step)
    requires Inv(seed, s) && Enabled(s, e)
    ensures Inv(seed, Next(s, e))
    ensures s.stores <= Next(s, e).stores && s.lost <= Next(s, e).lost && |s.sessions| <= |Next(s, e).sessions|
    ensures forall k :: 0 <= k < |s.sessions| ==> Next(s, e).sessions[k].index == s.sessions[k].index
  {
    match e {
      case Construct(_) =>
      case Load(_) =>
      case Reload(_) =>
      case Store(slot) => StoreShows(seed, s, slot);
      case Write(slot) => WriteKeepsId(s.sessions[slot].pc.high, s.sessions[slot].netId);
    }
  }

  lemma {:induction false} RunKeeps(seed: int, s: State, run: seq<Step>)
    requires Inv(seed, s) && Legal(s, run)
    ensures Inv(seed, After(s, run))
    ensures var t := After(s, run);
            s.stores <= t.stores && s.lost <= t.lost && |s.sessions| <= |t.sessions|
    ensures forall k :: 0 <= k < |s.sessions| ==> After(s, run).sessions[k].index == s.sessions[k].index
    decreases |run|
  {
    if run != [] {
      StepKeeps(seed, s, run[0]);
      RunKeeps(seed, Next(s, run[0]), run[1..]);
    }
  }

  lemma StartKeeps(seed: int)
    requires IsUShort(seed)
    ensures Inv(seed, Start(seed))
  {
  }

  /** In every interleaving, at every moment, Id() of each session is the index it was constructed
      with. */
  lemma {:induction false} IdStaysIndex(seed: int, run: seq<Step>, slot: nat)
    requires IsUShort(seed) && Legal(Start(seed), run) && slot < |After(Start(seed), run).sessions|
    ensures var me := After(Start(seed), run).sessions[slot];
            0 <= me.index < 65536 && me.netId % 65536 == me.index
  {
    StartKeeps(seed);
    RunKeeps(seed, Start(seed), run);
    assert SessionKept(seed, After(Start(seed), run), After(Start(seed), run).sessions[slot]);
  }

  /** So sessions with different indices never share a NetId, at any two moments of a run. */
  lemma {:induction false} NeverShared(seed: int, run: seq<Step>, later: seq<Step>, a: nat, b: nat)
    requires IsUShort(seed) && Legal(Start(seed), run) && Legal(After(Start(seed), run), later)
    requires a < |After(Start(seed), run).sessions| && b < |After(After(Start(seed), run), later).sessions|
    ensures var one, other := After(Start(seed), run).sessions[a], After(After(Start(seed), run), later).sessions[b];
            one.netId == other.netId ==> one.index == other.index
  {
    StartKeeps(seed);
    RunKeeps(seed, Start(seed), run);
    var s := After(Start(seed), run);
    RunKeeps(seed, s, later);
    assert SessionKept(seed, s, s.sessions[a]) && SessionKept(seed, After(s, later), After(s, later).sessions[b]);
  }

  // ---- Which NetIds are handed out twice ----

  /** What NewNetId returned: the session's index below, and above it the seed and the stores of
      the counter up to this one, less what stale loads have set it back. */
  lemma {:induction false} GrantIs(seed: int, s: State, run: seq<Step>, n: nat)
    requires Inv(seed, s) && Legal(s, run) && n < |Grants(s, run)|
    ensures var g := Grants(s, run)[n];
            var after := After(s, run);
            && g.slot < |after.sessions| && g.nth <= after.stores && g.lost <= after.lost
            && IsUShort(after.sessions[g.slot].index)
            && g.netId == (seed + g.nth - g.lost) % 65536 * 65536 + after.sessions[g.slot].index
    decreases |run|
  {
    var now, next := Granted(s, run[0]), Next(s, run[0]);
    StepKeeps(seed, s, run[0]);
    RunKeeps(seed, next, run[1..]);
    if n < |now| {
      var me := s.sessions[run[0].slot];
      assert SessionKept(seed, s, me) && Grants(s, run)[n] == now[n];
    } else {
      assert Grants(s, run)[n] == Grants(next, run[1..])[n - |now|];
      GrantIs(seed, next, run[1..], n - |now|);
    }
  }

  /** Exactly when two NetIds handed out in one interleaved run are the same: they went to the same
      index, and the stores between them, less what was lost between them, are a multiple of 65536. */
  lemma {:induction false} GrantsCollideIff(seed: int, run: seq<Step>, m: nat, n: nat)
    requires IsUShort(seed) && Legal(Start(seed), run)
    requires m < |Grants(Start(seed), run)| && n < |Grants(Start(seed), run)|
    ensures var g, h := Grants(Start(seed), run)[m], Grants(Start(seed), run)[n];
            var sessions := After(Start(seed), run).sessions;
            && g.slot < |sessions| && h.slot < |sessions|
            && (g.netId == h.netId
                <==> sessions[g.slot].index == sessions[h.slot].index
                     && ((h.nth - g.nth) - (h.lost - g.lost)) % 65536 == 0)
  {
    StartKeeps(seed);
    GrantIs(seed, Start(seed), run, m);
    GrantIs(seed, Start(seed), run, n);
    var g, h := Grants(Start(seed), run)[m], Grants(Start(seed), run)[n];
    SameRestIff(seed + g.nth - g.lost, seed + h.nth - h.lost);
  }

  lemma SameRestIff(a: int, b: int)
    ensures a % HALF == b % HALF <==> (b - a) % HALF == 0
  {
  }

  // ---- Stores of stale loads ----

  /** A store whose load is out of date sets the counter back. */
  predicate Stale(s: State, e: Step)
    requires Enabled(s, e)
  {
    e.Store? && Behind(s, e.slot) != 0
  }

  predicate NoneStale(s: State, run: seq<Step>)
    requires Legal(s, run)
    decreases |run|
  {
    run == [] || (!Stale(s, run[0]) && NoneStale(Next(s, run[0]), run[1..]))
  }

  /** The values the counter takes. */
  function Values(s: State, run: seq<Step>): seq<int>
    requires Legal(s, run)
    decreases |run|
  {
    if run == [] then []
    else
      var rest := Values(Next(s, run[0]), run[1..]);
      if run[0].Store? then [Next(s, run[0]).id] + rest else rest
  }

  ghost predicate CountsUp(from: int, values: seq<int>) {
    forall k :: 0 <= k < |values| ==> values[k] == (from + k + 1) % HALF
  }

  lemma CountsUpFirst(from: int, first: int, rest: seq<int>)
    ensures CountsUp(from, [first] + rest) <==> first == (from + 1) % HALF && CountsUp(from + 1, rest)
  {
    var all := [first] + rest;
    if CountsUp(from, all) {
      assert all[0] == first;
      forall k | 0 <= k < |rest| ensures rest[k] == (from + 1 + k + 1) % HALF { assert all[k + 1] == rest[k]; }
    }
  }

  lemma CountsUpFrom(from: int, values: seq<int>)
    ensures CountsUp(from % HALF, values) <==> CountsUp(from, values)
  {
    forall k | 0 <= k < |values|
      ensures values[k] == (from % HALF + k + 1) % HALF <==> values[k] == (from + k + 1) % HALF
    {
      SameRestIff(from % HALF + k + 1, from + k + 1);
    }
  }

  lemma StaleIff(seed: int, s: State, slot: nat)
    requires Inv(seed, s) && Enabled(s, Store(slot))
    ensures Stale(s, Store(slot)) <==> Next(s, Store(slot)).id != (s.id + 1) % HALF
  {
    assert SessionKept(seed, s, s.sessions[slot]);
    var seen := s.sessions[slot].pc.seen;
    SameRestIff(seen + 1, s.id + 1);
  }

  /** The counter counts its stores, one by one, exactly in the runs without a stale store. */
  lemma {:induction false} CountsUpIff(seed: int, s: State, run: seq<Step>)
    requires Inv(seed, s) && Legal(s, run)
    ensures NoneStale(s, run) <==> CountsUp(s.id, Values(s, run))
    decreases |run|
  {
    if run != [] {
      var next := Next(s, run[0]);
      StepKeeps(seed, s, run[0]);
      CountsUpIff(seed, next, run[1..]);
      if run[0].Store? {
        StaleIff(seed, s, run[0].slot);
        CountsUpFirst(s.id, next.id, Values(next, run[1..]));
        CountsUpFrom(s.id + 1, Values(next, run[1..]));
      }
    }
  }

  lemma {:induction false} LostIff(seed: int, s: State, run: seq<Step>)
    requires Inv(seed, s) && Legal(s, run)
    ensures NoneStale(s, run) <==> After(s, run).lost == s.lost
    decreases |run|
  {
    if run != [] {
      StepKeeps(seed, s, run[0]);
      LostIff(seed, Next(s, run[0]), run[1..]);
      RunKeeps(seed, Next(s, run[0]), run[1..]);
    }
  }

  /** Without a stale store two NetIds are the same exactly when they went to the same index a
      multiple of 65536 stores apart. */
  lemma {:induction false} FreshCollideIff(seed: int, run: seq<Step>, m: nat, n: nat)
    requires IsUShort(seed) && Legal(Start(seed), run) && NoneStale(Start(seed), run)
    requires m < |Grants(Start(seed), run)| && n < |Grants(Start(seed), run)|
    ensures var g, h := Grants(Start(seed), run)[m], Grants(Start(seed), run)[n];
            var sessions := After(Start(seed), run).sessions;
            && g.slot < |sessions| && h.slot < |sessions|
            && (g.netId == h.netId
                <==> sessions[g.slot].index == sessions[h.slot].index && (h.nth - g.nth) % 65536 == 0)
  {
    StartKeeps(seed);
    LostIff(seed, Start(seed), run);
    GrantIs(seed, Start(seed), run, m);
    GrantIs(seed, Start(seed), run, n);
    GrantsCollideIff(seed, run, m, n);
  }

  // ---- Lookup by NetId ----

  /** `n` is the last call that gave the session in `slot` a NetId. */
  ghost predicate LastGrant(gs: seq<Grant>, slot: nat, n: nat) {
    n < |gs| && gs[n].slot == slot && forall k :: n < k < |gs| ==> gs[k].slot != slot
  }

  lemma {:induction false} CurrentIsLast(s: State, run: seq<Step>, slot: nat, n: nat)
    requires Legal(s, run) && LastGrant(Grants(s, run), slot, n)
    ensures slot < |After(s, run).sessions| && After(s, run).sessions[slot].netId == Grants(s, run)[n].netId
    decreases |run|
  {
    var now, next := Granted(s, run[0]), Next(s, run[0]);
    var gs, rest := Grants(s, run), Grants(next, run[1..]);
    assert forall k :: 0 <= k < |rest| ==> rest[k] == gs[|now| + k];
    if n < |now| {
      Untouched(next, run[1..], slot);
    } else {
      CurrentIsLast(next, run[1..], slot, n - |now|);
    }
  }

  lemma {:induction false} Untouched(s: State, run: seq<Step>, slot: nat)
    requires Legal(s, run) && slot < |s.sessions|
    requires forall k :: 0 <= k < |Grants(s, run)| ==> Grants(s, run)[k].slot != slot
    ensures slot < |After(s, run).sessions| && After(s, run).sessions[slot].netId == s.sessions[slot].netId
    decreases |run|
  {
    if run != [] {
      var now, next := Granted(s, run[0]), Next(s, run[0]);
      var gs, rest := Grants(s, run), Grants(next, run[1..]);
      if run[0].Write? { assert now[0] == gs[0]; }
      assert forall k :: 0 <= k < |rest| ==> rest[k] == gs[|now| + k];
      Untouched(next, run[1..], slot);
    }
  }

  /** The sessions one HNet created, by position: HNet::_CreateSession gives each its position as
      index. */
  ghost predicate Table(sessions: seq<Session>, table: seq<nat>) {
    forall k :: 0 <= k < |table| ==> table[k] < |sessions| && sessions[table[k]].index == k
  }

  /** HNet::_FindSession: the session at the position the low half names, if that session's
      present NetId is the one asked for. */
  function FindSession(sessions: seq<Session>, table: seq<nat>, netId: int): Option<nat>
    requires Table(sessions, table)
  {
    var index := netId % HALF;
    if index >= |table| || netId != sessions[table[index]].netId then None else Some(table[index])
  }

  /** Whether a NetId once handed out leads anywhere, in every interleaving: to its own session
      exactly as long as the last NetId that session was given is the same number again, and
      otherwise nowhere. */
  lemma {:induction false} LookupIff(seed: int, run: seq<Step>, table: seq<nat>, n: nat, last: nat)
    requires IsUShort(seed) && Legal(Start(seed), run) && Table(After(Start(seed), run).sessions, table)
    requires n < |Grants(Start(seed), run)| && Grants(Start(seed), run)[n].slot in table
    requires LastGrant(Grants(Start(seed), run), Grants(Start(seed), run)[n].slot, last)
    ensures var g, h := Grants(Start(seed), run)[n], Grants(Start(seed), run)[last];
            FindSession(After(Start(seed), run).sessions, table, g.netId)
            == if ((h.nth - g.nth) - (h.lost - g.lost)) % 65536 == 0 then Some(g.slot) else None
  {
    StartKeeps(seed);
    var g := Grants(Start(seed), run)[n];
    var sessions := After(Start(seed), run).sessions;
    GrantIs(seed, Start(seed), run, n);
    CurrentIsLast(Start(seed), run, g.slot, last);
    GrantsCollideIff(seed, run, n, last);
    var p :| 0 <= p < |table| && table[p] == g.slot;
    LowHalf((seed + g.nth - g.lost) % HALF, sessions[g.slot].index);
    assert g.netId % HALF == p;
  }

  lemma LowHalf(high: int, low: int)
    requires IsUShort(low)
    ensures (high * HALF + low) % HALF == low
  {
  }

  // ---- A NetId handed out twice in a row ----

  lemma {:induction false} RunsCompose(s: State, first: seq<Step>, second: seq<Step>)
    requires Legal(s, first) && Legal(After(s, first), second)
    ensures Legal(s, first + second) && After(s, first + second) == After(After(s, first), second)
    ensures Grants(s, first + second) == Grants(s, first) + Grants(After(s, first), second)
    decreases |first|
  {
    if first == [] {
      assert first + second == second;
    } else {
      assert (first + second)[0] == first[0] && (first + second)[1..] == first[1..] + second;
      RunsCompose(Next(s, first[0]), first[1..], second);
    }
  }

  function Renewal(slot: nat): seq<Step> { [Load(slot), Store(slot), Write(slot)] }

  lemma One(s: State, e: Step)
    requires Enabled(s, e)
    ensures Legal(s, [e]) && After(s, [e]) == Next(s, e) && Grants(s, [e]) == Granted(s, e)
  {
    assert [e][1..] == [];
    assert Granted(s, e) + [] == Granted(s, e);
  }

  /** A call of NewNetId that nothing comes between. */
  lemma RenewAlone(s: State, slot: nat)
    requires IsUShort(s.id) && slot < |s.sessions| && s.sessions[slot].pc.Idle?
    ensures Legal(s, Renewal(slot))
    ensures var id, me := (s.id + 1) % HALF, s.sessions[slot];
            && After(s, Renewal(slot))
               == State(id, s.sessions[slot := Session(me.index, Joined(id, me.netId), Idle)], s.stores + 1, s.lost)
            && Grants(s, Renewal(slot)) == [Grant(slot, Joined(id, me.netId), s.stores + 1, s.lost)]
  {
    var a := Next(s, Load(slot));
    var b := Next(a, Store(slot));
    One(s, Load(slot));
    One(a, Store(slot));
    One(b, Write(slot));
    RunsCompose(a, [Store(slot)], [Write(slot)]);
    RunsCompose(s, [Load(slot)], [Store(slot)] + [Write(slot)]);
    assert Renewal(slot) == [Load(slot)] + ([Store(slot)] + [Write(slot)]);
  }

  /** What NewNetId returns if the counter is read again before the session's own field is written:
      what the counter holds then, whoever stored it. */
  lemma ReloadUses(s: State, slot: nat)
    requires Enabled(s, Reload(slot))
    ensures Legal(s, [Reload(slot), Write(slot)])
    ensures Grants(s, [Reload(slot), Write(slot)])
            == [Grant(slot, s.id * 65536 + s.sessions[slot].netId % 65536, s.stores, s.lost)]
    ensures Legal(s, [Write(slot)])
    ensures Grants(s, [Write(slot)])
            == [Grant(slot, s.sessions[slot].pc.high * 65536 + s.sessions[slot].netId % 65536,
                      s.sessions[slot].pc.nth, s.sessions[slot].pc.lost)]
  {
    var t := Next(s, Reload(slot));
    One(s, Reload(slot));
    One(t, Write(slot));
    One(s, Write(slot));
    RunsCompose(s, [Reload(slot)], [Write(slot)]);
    assert [Reload(slot)] + [Write(slot)] == [Reload(slot), Write(slot)];
  }

  /** Session 0 has been given `netId`, session 1 is under construction and has loaded the counter. */
  function Standing(loaded: int, id: int, netId: int, stores: nat): State {
    State(id, [Session(0, netId, Idle), Session(1, 1, Loaded(loaded))], stores, 0)
  }

  /** Session 0 is constructed, and then session 1 as far as its load. */
  lemma SetUpStands(seed: int) returns (run: seq<Step>)
    requires IsUShort(seed)
    ensures var first := (seed + 1) % HALF;
            && Legal(Start(seed), run) && After(Start(seed), run) == Standing(first, first, first * HALF, 1)
            && Grants(Start(seed), run) == [Grant(0, first * HALF, 1, 0)]
  {
    var s0 := Start(seed);
    var s1 := Next(s0, Construct(0));
    One(s0, Construct(0));
    RenewAlone(s1, 0);
    var s2 := After(s1, Renewal(0));
    var s3 := Next(s2, Construct(1));
    One(s2, Construct(1));
    One(s3, Load(1));
    FourInTurn(s0, [Construct(0)], Renewal(0), [Construct(1)], [Load(1)]);
    run := [Construct(0)] + (Renewal(0) + ([Construct(1)] + [Load(1)]));
    Twice(seed);
    assert Next(s3, Load(1)).sessions == [Session(0, s2.sessions[0].netId, Idle), Session(1, 1, Loaded(s2.id))];
  }

  lemma RenewStanding(loaded: int, id: int, netId: int, stores: nat) returns (run: seq<Step>)
    requires IsUShort(id) && netId % HALF == 0
    ensures var s, next := Standing(loaded, id, netId, stores), (id + 1) % HALF;
            && Legal(s, run) && After(s, run) == Standing(loaded, next, next * HALF, stores + 1)
            && Grants(s, run) == [Grant(0, next * HALF, stores + 1, 0)]
  {
    run := Renewal(0);
    RenewAlone(Standing(loaded, id, netId, stores), 0);
  }

  /** The store of the stale load, and one more renewal. */
  lemma SetBackAndRenew(loaded: int, s: State, n: nat) returns (run: seq<Step>)
    requires IsUShort(loaded) && s == Standing(loaded, (loaded + 2) % HALF, (loaded + 2) % HALF * HALF, n)
    ensures Legal(s, run) && After(s, run).lost == 2
    ensures After(s, run).sessions
            == [Session(0, (loaded + 2) % HALF * HALF, Idle), Session(1, 1, Stored((loaded + 1) % HALF, n + 1, 2))]
    ensures Grants(s, run) == [Grant(0, (loaded + 2) % HALF * HALF, n + 2, 2)]
  {
    SameRestIff(2, (loaded + 2) % HALF - loaded);
    assert Behind(s, 1) == 2;
    One(s, Store(1));
    var t := Next(s, Store(1));
    assert t.sessions
        == [Session(0, (loaded + 2) % HALF * HALF, Idle), Session(1, 1, Stored((loaded + 1) % HALF, n + 1, 2))];
    RenewAlone(t, 0);
    RunsCompose(s, [Store(1)], Renewal(0));
    Twice(loaded);
    run := [Store(1)] + Renewal(0);
  }

  lemma Twice(n: int)
    ensures ((n + 1) % HALF + 1) % HALF == (n + 2) % HALF && ((n + 2) % HALF * HALF) % HALF == 0
    ensures ((n + 1) % HALF * HALF) % HALF == 0
  {
  }

  lemma FourInTurn(s: State, a: seq<Step>, b: seq<Step>, c: seq<Step>, d: seq<Step>)
    requires Legal(s, a) && Legal(After(s, a), b) && Legal(After(After(s, a), b), c)
    requires Legal(After(After(After(s, a), b), c), d)
    ensures var s1 := After(s, a); var s2 := After(s1, b); var s3 := After(s2, c);
            var run := a + (b + (c + d));
            && Legal(s, run) && After(s, run) == After(s3, d)
            && Grants(s, run) == Grants(s, a) + (Grants(s1, b) + (Grants(s2, c) + Grants(s3, d)))
  {
    var s1 := After(s, a);
    var s2 := After(s1, b);
    RunsCompose(s2, c, d);
    RunsCompose(s1, b, c + d);
    RunsCompose(s, a, b + (c + d));
  }

  lemma ThreeInTurn(s: State, a: seq<Step>, b: seq<Step>, c: seq<Step>)
    requires Legal(s, a) && Legal(After(s, a), b) && Legal(After(After(s, a), b), c)
    ensures var s1 := After(s, a); var s2 := After(s1, b);
            var run := a + (b + c);
            && Legal(s, run) && After(s, run) == After(s2, c)
            && Grants(s, run) == Grants(s, a) + (Grants(s1, b) + Grants(s2, c))
  {
    RunsCompose(After(s, a), b, c);
    RunsCompose(s, a, b + c);
  }

  /** Two renewals, the store of the stale load, and one more renewal. */
  lemma ThreeMore(first: int, n: nat) returns (run: seq<Step>)
    requires IsUShort(first)
    ensures var second, third := (first + 1) % HALF * HALF, (first + 2) % HALF * HALF;
            var s := Standing(first, first, first * HALF, n);
            && Legal(s, run) && After(s, run).lost == 2
            && Grants(s, run)
               == [Grant(0, second, n + 1, 0)] + ([Grant(0, third, n + 2, 0)] + [Grant(0, third, n + 4, 2)])
            && After(s, run).sessions == [Session(0, third, Idle), Session(1, 1, Stored((first + 1) % HALF, n + 3, 2))]
  {
    var second, third := (first + 1) % HALF, (first + 2) % HALF;
    var s := Standing(first, first, first * HALF, n);
    Twice(first);
    assert (first * HALF) % HALF == 0;
    var b := RenewStanding(first, first, first * HALF, n);
    var c := RenewStanding(first, second, second * HALF, n + 1);
    var d := SetBackAndRenew(first, Standing(first, third, third * HALF, n + 2), n + 2);
    ThreeInTurn(s, b, c, d);
    run := b + (c + d);
  }

  lemma {:induction false} FourGrants(seed: int) returns (run: seq<Step>)
    requires IsUShort(seed)
    ensures Legal(Start(seed), run)
    ensures var first := (seed + 1) % HALF;
            var second, third := (first + 1) % HALF * HALF, (first + 2) % HALF * HALF;
            && Grants(Start(seed), run)
               == [Grant(0, first * HALF, 1, 0)]
                  + ([Grant(0, second, 2, 0)] + ([Grant(0, third, 3, 0)] + [Grant(0, third, 5, 2)]))
            && After(Start(seed), run).lost == 2
            && After(Start(seed), run).sessions
               == [Session(0, third, Idle), Session(1, 1, Stored((first + 1) % HALF, 4, 2))]
  {
    var a := SetUpStands(seed);
    var rest := ThreeMore((seed + 1) % HALF, 1);
    RunsCompose(Start(seed), a, rest);
    run := a + rest;
  }

  /** What interleaving can do, from every seed: while a session under construction stands between
      its load and its store, the one constructed before it is given two NetIds; the store then sets
      the counter back, and that session is given the second of them once more, two stores later. Who
      held it for the connection before now finds the new one. */
  lemma {:induction false} GivenTwiceInARow(seed: int) returns (run: seq<Step>)
    requires IsUShort(seed)
    ensures Legal(Start(seed), run) && !NoneStale(Start(seed), run)
    ensures var gs := Grants(Start(seed), run);
            && |gs| == 4 && gs[1].netId != gs[2].netId == gs[3].netId && gs[2].slot == gs[3].slot == 0
            && gs[3].nth == gs[2].nth + 2
            && var sessions := After(Start(seed), run).sessions;
               Table(sessions, [0, 1]) && FindSession(sessions, [0, 1], gs[2].netId) == Some(0)
  {
    run := FourGrants(seed);
    Twice((seed + 1) % HALF);
    StartKeeps(seed);
    LostIff(seed, Start(seed), run);
  }
}
