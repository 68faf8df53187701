/** GetEntityKey under any number of concurrent callers. */
module EntityKey {

  /** 2^32, the range of the static counter. */
  const WORD := 0x1_0000_0000

  type Caller = nat

  /** `retrying` are the callers whose first increment gave 0 and who have yet to do their
      second. A caller between calls needs no record. */
  datatype State = State(key: int, retrying: set<Caller>)

  function Start(tick: int): State { State(tick, {}) }

  /** One interlocked increment by `who`: its first, or the second if the first gave 0. */
  function Next(s: State, who: Caller): State {
    var key := (s.key + 1) % WORD;
    if who in s.retrying then State(key, s.retrying - {who})
    else if key == 0 then State(key, s.retrying + {who})
    else State(key, s.retrying)
  }

  /** The key that increment makes its call return, if it does. */
  function Issued(s: State, who: Caller): seq<int> {
    var key := (s.key + 1) % WORD;
    if who !in s.retrying && key == 0 then [] else [key]
  }

  /** A run lists the callers in the order of their increments. */
  function After(s: State, run: seq<Caller>): State
    decreases |run|
  {
    if run == [] then s else After(Next(s, run[0]), run[1..])
  }

  function Keys(s: State, run: seq<Caller>): seq<int>
    decreases |run|
  {
    if run == [] then [] else Issued(s, run[0]) + Keys(Next(s, run[0]), run[1..])
  }

  ghost predicate Good(keys: seq<int>) {
    && (forall i :: 0 <= i < |keys| ==> keys[i] != 0)
    && (forall i, j :: 0 <= i < j < |keys| ==> keys[i] != keys[j])
  }

  predicate IsKey(n: int) { 0 <= n < WORD }

  /** What the counter shows `d` increments after it showed `from`. */
  function CounterAt(from: int, d: nat): int { (from + d) % WORD }

  ghost predicate Within(k: int, from: int, reach: int) {
    exists d: nat :: 1 <= d <= reach && k == CounterAt(from, d)
  }

  lemma {:induction false} KeysAreUnique(s: State, run: seq<Caller>)
    requires IsKey(s.key) && |run| <= WORD
    requires s.retrying != {} ==> s.key + |run| < WORD
    ensures Good(Keys(s, run))
    ensures forall k :: k in Keys(s, run) ==> Within(k, s.key, |run|)
    decreases |run|
  {
    if run != [] {
      var s' := Next(s, run[0]);
      var rest := Keys(s', run[1..]);
      KeysAreUnique(s', run[1..]);
      forall k | k in rest
        ensures k != s'.key && Within(k, s.key, |run|)
      {
        LaterIsOther(s.key, k, |run|);
      }
      assert s'.key == CounterAt(s.key, 1);
      var first := Issued(s, run[0]);
      assert forall i :: 0 <= i < |rest| ==> rest[i] in rest;
      assert forall k :: k in first + rest ==> k in first || k in rest;
    }
  }

  /** What the counter shows later in a period is not what it shows next. */
  lemma LaterIsOther(from: int, k: int, reach: nat)
    requires IsKey(from) && 0 < reach <= WORD && Within(k, CounterAt(from, 1), reach - 1)
    ensures k != CounterAt(from, 1) && Within(k, from, reach)
  {
    var d: nat :| 1 <= d <= reach - 1 && k == CounterAt(CounterAt(from, 1), d);
    Further(from, d);
    Moves(CounterAt(from, 1), d);
  }

  lemma Further(from: int, d: nat)
    requires IsKey(from)
    ensures IsKey(CounterAt(from, 1)) && CounterAt(CounterAt(from, 1), d) == CounterAt(from, d + 1)
  {
    if from == WORD - 1 { Rounds(d); }
  }

  lemma Rounds(d: nat)
    ensures (WORD + d) % WORD == d % WORD
  {
  }

  lemma Moves(from: int, d: nat)
    requires IsKey(from) && 0 < d < WORD
    ensures CounterAt(from, d) != from
  {
    if from + d >= WORD { assert (from + d) % WORD == from + d - WORD; }
  }

  lemma {:induction false} CounterAfter(s: State, run: seq<Caller>)
    requires IsKey(s.key)
    ensures After(s, run).key == CounterAt(s.key, |run|)
    decreases |run|
  {
    if run != [] {
      CounterAfter(Next(s, run[0]), run[1..]);
      Further(s.key, |run| - 1);
    }
  }

  lemma {:induction false} OneMore(s: State, run: seq<Caller>, who: Caller)
    ensures Keys(s, run + [who]) == Keys(s, run) + Issued(After(s, run), who)
    decreases |run|
  {
    if run == [] {
      assert [who][1..] == [] && run + [who] == [who];
    } else {
      assert (run + [who])[0] == run[0] && (run + [who])[1..] == run[1..] + [who];
      OneMore(Next(s, run[0]), run[1..], who);
    }
  }

  function Repeat(who: Caller, n: nat): (run: seq<Caller>)
    ensures |run| == n
  {
    if n == 0 then [] else [who] + Repeat(who, n - 1)
  }

  /** Another caller's increments do not finish a call that waits for its second one. */
  lemma {:induction false} StillRetrying(s: State, waiting: Caller, who: Caller, n: nat)
    requires waiting in s.retrying && waiting != who
    ensures waiting in After(s, Repeat(who, n)).retrying
    decreases n
  {
    if n != 0 {
      assert Repeat(who, n)[1..] == Repeat(who, n - 1);
      StillRetrying(Next(s, who), waiting, who, n - 1);
    }
  }

  /** 2^32 + 1 increments are too many from every starting tick: either the first key comes
      back, or a caller whose two increments are 2^32 apart returns 0. */
  lemma {:induction false} OneTooMany(tick: int) returns (run: seq<Caller>)
    requires IsKey(tick)
    ensures |run| == WORD + 1 && !Good(Keys(Start(tick), run))
  {
    run := Around(tick, WORD - 1);
  }

  /** One caller's increment, `n` by another that take the counter all the way round, and a
      second by the first. */
  lemma {:induction false} Around(tick: int, n: nat) returns (run: seq<Caller>)
    requires IsKey(tick) && n == WORD - 1
    ensures |run| == n + 2 && !Good(Keys(Start(tick), run))
  {
    var s := Start(tick);
    var most := [0] + Repeat(1, n);
    run := most + [0];
    assert most[0] == 0 && most[1..] == Repeat(1, n);
    CounterAfter(s, most);
    OneMore(s, most, 0);
    if tick + 1 == WORD {
      StillRetrying(Next(s, 0), 0, 1, n);
      EndsBad(Keys(s, most), 0);
    } else {
      EndsBad([tick + 1] + Keys(Next(s, 0), most[1..]), tick + 1);
    }
  }

  /** A last key that is 0 or has been returned first. */
  lemma EndsBad(keys: seq<int>, last: int)
    requires last == 0 || (keys != [] && keys[0] == last)
    ensures !Good(keys + [last])
  {
    var all := keys + [last];
    assert all[|all| - 1] == last && (keys != [] ==> all[0] == keys[0]);
  }

  /** Whoever calls, the keys are the numbers behind the starting tick, one by one; past 2^32 - 1 they
      go on at 1. */
  lemma {:induction false} KeysCountUp(tick: int, run: seq<Caller>, who: Caller)
    requires IsKey(tick)
    ensures tick + |run| < 0x1_0000_0000 ==>
              |Keys(Start(tick), run)| == |run| && forall i :: 0 <= i < |run| ==> Keys(Start(tick), run)[i] == tick + 1 + i
    ensures Keys(Start(0xFFFF_FFFF), [who, who]) == [1]
    decreases |run|
  {
    if run != [] && tick + |run| < 0x1_0000_0000 {
      assert Next(Start(tick), run[0]) == Start(tick + 1);
      KeysCountUp(tick + 1, run[1..], who);
    }
    RetryGivesOne(who);
  }

  lemma RetryGivesOne(who: Caller)
    ensures Keys(Start(0xFFFF_FFFF), [who, who]) == [1]
  {
    var s := Next(Start(0xFFFF_FFFF), who);
    assert s == State(0, {who}) && [who, who][1..] == [who] && [who][1..] == [];
    assert Keys(s, [who]) == [1] + Keys(Next(s, who), []) == [1];
  }

  /** Keys are non-zero and pairwise distinct in every interleaving, from any starting tick,
      exactly up to 2^32 increments. */
  lemma {:induction false} UniqueIffOnePeriod(tick: int, limit: nat)
    requires IsKey(tick)
    ensures limit <= 0x1_0000_0000 <==> forall run :: |run| <= limit ==> Good(Keys(Start(tick), run))
  {
    if limit <= WORD {
      forall run | |run| <= limit ensures Good(Keys(Start(tick), run)) {
        KeysAreUnique(Start(tick), run);
      }
    } else {
      var run := OneTooMany(tick);
      assert |run| <= limit;
    }
  }
}
