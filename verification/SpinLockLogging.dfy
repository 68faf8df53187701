/** The contention log: how often a spinning Lock reports itself, and how often a report
    becomes a log line. */
module SpinLockLogging {
  import opened SpinLock

  /** Range of the tick count of GetTickCount64. */
  const TICKS := 0x1_0000_0000_0000_0000
  const QUIET := 3000
  const SPINS_BEFORE_LOG := 4000

  /** What one attempt of a Lock reads while other threads run: `_count` at the
      compare-exchange and `_threadId` at the comparison after it. */
  datatype Attempt = Attempt(count: int, owner: int)

  datatype Outcome = Acquired | Reentered | StillSpinning

  /** The waiting loop of Lock, against any sequence of values the other threads leave in the
      two words. It goes on past `failures` attempts that read a count other than 0 and another
      thread's id, and ends at the next one, which read a count of 0 or the caller's own id.
      LogSpinLock is called once per 4001 failures. */
  method SpinInLock(cur: Tid, attempts: seq<Attempt>) returns (outcome: Outcome, logCalls: nat, ghost failures: nat)
    ensures failures <= |attempts| && logCalls == failures / 4001
    ensures forall i :: 0 <= i < failures ==> attempts[i].count != 0 && attempts[i].owner != cur
    ensures outcome == StillSpinning <==> failures == |attempts|
    ensures outcome == Acquired <==> failures < |attempts| && attempts[failures].count == 0
    ensures outcome == Reentered
            <==> failures < |attempts| && attempts[failures].count != 0 && attempts[failures].owner == cur
    ensures outcome == Ending(cur, attempts)
  {
    var spinCount := 0;
    logCalls, failures := 0, 0;
    var i := 0;
    while i < |attempts| && attempts[i].count != 0
      invariant 0 <= i == failures <= |attempts|
      invariant forall j :: 0 <= j < i ==> attempts[j].count != 0 && attempts[j].owner != cur
      invariant 0 <= spinCount <= SPINS_BEFORE_LOG
      invariant i == logCalls * (SPINS_BEFORE_LOG + 1) + spinCount
    {
      if cur == attempts[i].owner {
        EndingIs(cur, attempts, i);
        return Reentered, logCalls, failures;
      }
      i := i + 1;
      failures := i;
      spinCount := spinCount + 1;
      if SPINS_BEFORE_LOG < spinCount {
        spinCount := 0;
        logCalls := logCalls + 1;
      }
    }
    EndingIs(cur, attempts, i);
    outcome := if i == |attempts| then StillSpinning else Acquired;
  }

  /** How a sequence of attempts ends. */
  function Ending(cur: Tid, attempts: seq<Attempt>): Outcome {
    if attempts == [] then StillSpinning
    else if attempts[0].count == 0 then Acquired
    else if attempts[0].owner == cur then Reentered
    else Ending(cur, attempts[1..])
  }

  lemma {:induction false} EndingIs(cur: Tid, attempts: seq<Attempt>, f: nat)
    requires f <= |attempts|
    requires forall i :: 0 <= i < f ==> attempts[i].count != 0 && attempts[i].owner != cur
    requires f < |attempts| ==> attempts[f].count == 0 || attempts[f].owner == cur
    ensures Ending(cur, attempts) == if f == |attempts| then StillSpinning
                                     else if attempts[f].count == 0 then Acquired else Reentered
  {
    if f > 0 { EndingIs(cur, attempts[1..], f - 1); }
  }

  // ---- The loop against the step machine ----

  /** The thread's own steps in the run are compare-exchanges and owner checks. */
  predicate Spins(limit: nat, s: State, run: seq<Step>, t: Tid)
    requires Legal(limit, s, run) && t in s.threads
    decreases |run|
  {
    run != [] ==>
      && (run[0].who == t ==> s.threads[t].pc.TryEnter? || s.threads[t].pc.CheckOwner?)
      && Spins(limit, Next(s, run[0]), run[1..], t)
  }

  /** What the thread reads in the run, attempt by attempt; `count` is what its last compare-exchange
      read, if that failed. */
  function Attempts(limit: nat, s: State, run: seq<Step>, t: Tid, count: int): seq<Attempt>
    requires Legal(limit, s, run) && t in s.threads
    decreases |run|
  {
    if run == [] then []
    else
      var next := Next(s, run[0]);
      if run[0].who != t then Attempts(limit, next, run[1..], t, count)
      else if s.threads[t].pc.CheckOwner? then
        [Attempt(count, s.owner)] + Attempts(limit, next, run[1..], t, 0)
      else if s.count == 0 then
        [Attempt(0, s.owner)] + Attempts(limit, next, run[1..], t, 0)
      else Attempts(limit, next, run[1..], t, s.count)
  }

  /** Once past the loop, with no further step of its own. */
  lemma {:induction false} PastTheLoop(limit: nat, s: State, run: seq<Step>, t: Tid, count: int)
    requires Legal(limit, s, run) && t in s.threads && Spins(limit, s, run, t)
    requires !s.threads[t].pc.TryEnter? && !s.threads[t].pc.CheckOwner?
    ensures t in After(limit, s, run).threads && After(limit, s, run).threads[t] == s.threads[t]
    ensures Attempts(limit, s, run, t, count) == []
    decreases |run|
  {
    if run != [] { PastTheLoop(limit, Next(s, run[0]), run[1..], t, count); }
  }

  /** In every interleaving the loop, fed with what the thread reads, ends exactly as the thread does
      in the step machine. */
  lemma {:induction false} LoopIsMachine(limit: nat, s: State, run: seq<Step>, t: Tid, count: int)
    requires Legal(limit, s, run) && t in s.threads && Spins(limit, s, run, t)
    requires s.threads[t].pc.TryEnter? || (s.threads[t].pc.CheckOwner? && count != 0)
    ensures t in After(limit, s, run).threads
    ensures var pc, end := After(limit, s, run).threads[t].pc, Ending(t, Attempts(limit, s, run, t, count));
            && (end == StillSpinning <==> pc.TryEnter? || pc.CheckOwner?)
            && (end == Acquired <==> pc.SetOwner?)
            && (end == Reentered <==> pc.ReadCount?)
    decreases |run|
  {
    if run != [] {
      var next := Next(s, run[0]);
      var count' := if run[0].who != t then count else if s.threads[t].pc.CheckOwner? then 0 else s.count;
      if next.threads[t].pc.TryEnter? || next.threads[t].pc.CheckOwner? {
        LoopIsMachine(limit, next, run[1..], t, count');
      } else {
        PastTheLoop(limit, next, run[1..], t, count');
      }
    }
  }

  /** The two clock readings of one LogSpinLock call; the second is taken only if it logs. */
  datatype Reading = Reading(now: int, again: int)

  predicate IsTick(n: int) { 0 <= n < TICKS }

  /** Unsigned 64-bit difference against the tick of the last line. */
  predicate Emits(tick: int, now: int) {
    QUIET <= (now - tick) % TICKS
  }

  function NextTick(tick: int, r: Reading): int {
    if Emits(tick, r.now) then r.again else tick
  }

  /** The thread's own `t_tick`. `lines` are the lines written; `since` is when the thread began,
      `steady` whether the clock has never gone back since, and `last` its latest reading until it
      does. */
  class LogThrottle {
    var tick: int
    ghost var lines: nat
    ghost var since: int
    ghost var last: int
    ghost var steady: bool
    /** The readings of all calls so far. */
    ghost var taken: seq<Reading>

    /** While the clock is steady, lines are 3000 ms apart. */
    ghost predicate Valid()
      reads this
    {
      && IsTick(tick) && 0 <= since <= last
      && tick == TickAfter(0, taken) && lines == Lines(0, taken)
      && (steady && lines == 0 ==> tick <= since)
      && (steady && lines > 0 ==> since + QUIET * (lines - 1) <= tick <= last)
    }

    constructor (now: int)
      requires IsTick(now)
      ensures Valid() && lines == 0 && since == now && steady && taken == []
    {
      tick, lines, since, last, steady, taken := 0, 0, now, now, true, [];
    }

    /** A line is written exactly if the last one is 3000 ms old, and on a steady clock there are
        never more than one in 3000 ms, and one. */
    method LogSpinLock(r: Reading) returns (emitted: bool)
      requires Valid() && IsTick(r.now) && IsTick(r.again)
      modifies this
      ensures Valid() && since == old(since) && taken == old(taken) + [r]
      ensures steady == (old(steady) && old(last) <= r.now <= r.again)
      ensures lines == old(lines) + if emitted then 1 else 0
      ensures emitted <==> 3000 <= (r.now - old(tick)) % 0x1_0000_0000_0000_0000
      ensures tick == if emitted then r.again else old(tick)
      ensures steady ==> (emitted <==> old(tick) + 3000 <= r.now) && last == if emitted then r.again else r.now
      ensures steady ==> lines <= (last - since) / 3000 + 1
    {
      OneMore(0, taken, r);
      taken := taken + [r];
      steady := steady && last <= r.now <= r.again;
      if steady { last := r.now; }
      if (r.now - tick) % TICKS < QUIET {
        return false;
      }
      tick, lines := r.again, lines + 1;
      if steady { last := r.again; }
      emitted := true;
    }
  }

  function Lines(tick: int, readings: seq<Reading>): nat
    decreases |readings|
  {
    if readings == [] then 0
    else (if Emits(tick, readings[0].now) then 1 else 0) + Lines(NextTick(tick, readings[0]), readings[1..])
  }

  function TickAfter(tick: int, readings: seq<Reading>): int
    decreases |readings|
  {
    if readings == [] then tick else TickAfter(NextTick(tick, readings[0]), readings[1..])
  }

  lemma {:induction false} OneMore(tick: int, readings: seq<Reading>, r: Reading)
    ensures Lines(tick, readings + [r]) == Lines(tick, readings) + if Emits(TickAfter(tick, readings), r.now) then 1 else 0
    ensures TickAfter(tick, readings + [r]) == NextTick(TickAfter(tick, readings), r)
    decreases |readings|
  {
    if readings == [] {
      assert readings + [r] == [r] && [r][1..] == [];
    } else {
      assert (readings + [r])[0] == readings[0] && (readings + [r])[1..] == readings[1..] + [r];
      OneMore(NextTick(tick, readings[0]), readings[1..], r);
    }
  }

  /** A clock that never goes back. */
  predicate NonDecreasing(from: int, readings: seq<Reading>)
    decreases |readings|
  {
    readings == [] ||
    (from <= readings[0].now <= readings[0].again < TICKS && NonDecreasing(readings[0].again, readings[1..]))
  }

  function LastNow(readings: seq<Reading>): int
    requires readings != []
  {
    readings[|readings| - 1].now
  }

  lemma {:induction false} LinesAreSpaced(tick: int, from: int, readings: seq<Reading>)
    requires 0 <= tick <= from && readings != [] && NonDecreasing(from, readings)
    ensures from <= LastNow(readings)
    ensures QUIET * Lines(tick, readings) <= LastNow(readings) - tick
    decreases |readings|
  {
    var r := readings[0];
    if |readings| > 1 {
      assert LastNow(readings[1..]) == LastNow(readings);
      LinesAreSpaced(NextTick(tick, r), r.again, readings[1..]);
    } else {
      assert readings[1..] == [];
    }
  }

  /** Over any run of one thread with a clock that does not go back, from whatever tick, at
      most elapsed / 3000 + 1 lines are written. */
  lemma {:induction false} LogRateBounded(tick: int, readings: seq<Reading>)
    requires readings != [] && 0 <= tick <= readings[0].now && NonDecreasing(readings[0].now, readings)
    ensures Lines(tick, readings) <= (LastNow(readings) - readings[0].now) / 3000 + 1
  {
    var r := readings[0];
    if |readings| == 1 {
      assert readings[1..] == [];
    } else if !Emits(tick, r.now) {
      assert LastNow(readings[1..]) == LastNow(readings);
      LinesAreSpaced(tick, r.again, readings[1..]);
      assert QUIET * Lines(tick, readings) <= LastNow(readings) - tick < LastNow(readings) - r.now + QUIET;
    } else {
      assert LastNow(readings[1..]) == LastNow(readings);
      LinesAreSpaced(r.again, r.again, readings[1..]);
    }
  }
}
