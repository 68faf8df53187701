/** The recursive spin lock as a step machine: any number of threads, one step at a time, in
    any order. Only the compare-exchange is atomic; every plain read or write of a shared word
    is a step of its own, in the order the source performs it. */
module SpinLock {

  /** 2^32, the range of the `unsigned long` words. */
  const WORD := 0x1_0000_0000

  /** A thread id as GetCurrentThreadId returns it. */
  type Tid = t: int | 0 < t < WORD witness 1

  /** What the owner word holds when nobody has written an id into it. */
  const NOBODY: int := 0

  /** Where a thread stands. A value read from `_count` into a local is carried by the
      counter that needs it. */
  datatype PC =
    | Outside            // in neither Lock nor Unlock
    | TryEnter           // about to run the compare-exchange
    | CheckOwner         // compare-exchange failed, about to read _threadId
    | ReadCount          // first half of ++_count
    | WriteCount(seen: int)
    | SetOwner           // compare-exchange succeeded, about to write _threadId
    | ReadForUnlock      // about to copy _count into lockCount
    | WriteBack(left: int)
    | ClearOwner         // about to write _threadId = 0
    | ClearCount         // about to write _count = 0

  /** `scopes` is the number of live ScopedSpinLock objects of the thread: constructor
      finished, destructor not yet started. */
  datatype Thread = Thread(pc: PC, scopes: nat)

  datatype State = State(count: int, owner: int, threads: map<Tid, Thread>)

  datatype Action = CallLock | CallUnlock | Advance

  datatype Step = Step(who: Tid, action: Action)

  function Start(ids: set<Tid>): State {
    State(0, NOBODY, map t | t in ids :: Thread(Outside, 0))
  }

  /** `limit` bounds the nesting depth a thread may ask for. Unlock is called by a scope's
      destructor, hence only by a thread that has one. */
  predicate Enabled(limit: nat, s: State, e: Step) {
    && e.who in s.threads
    && var me := s.threads[e.who];
    match e.action
    case CallLock => me.pc.Outside? && me.scopes < limit
    case CallUnlock => me.pc.Outside? && 0 < me.scopes
    case Advance => !me.pc.Outside?
  }

  function Goto(s: State, t: Tid, pc: PC): State
    requires t in s.threads
  {
    s.(threads := s.threads[t := s.threads[t].(pc := pc)])
  }

  function LockReturns(s: State, t: Tid): State
    requires t in s.threads
  {
    s.(threads := s.threads[t := Thread(Outside, s.threads[t].scopes + 1)])
  }

  function Next(s: State, e: Step): State
    requires e.who in s.threads
  {
    var t := e.who;
    var me := s.threads[t];
    match e.action
    case CallLock => Goto(s, t, TryEnter)
    case CallUnlock =>
      if me.scopes == 0 then s
      else s.(threads := s.threads[t := Thread(ReadForUnlock, me.scopes - 1)])
    case Advance =>
      match me.pc
      case Outside => s
      case TryEnter =>
        if s.count == 0 then Goto(s.(count := 1), t, SetOwner) else Goto(s, t, CheckOwner)
      case CheckOwner =>
        if s.owner == t then Goto(s, t, ReadCount) else Goto(s, t, TryEnter)
      case ReadCount => Goto(s, t, WriteCount(s.count))
      case WriteCount(seen) => LockReturns(s.(count := (seen + 1) % WORD), t)
      case SetOwner => LockReturns(s.(owner := t), t)
      case ReadForUnlock =>
        var left := (s.count - 1) % WORD;
        if left != 0 then Goto(s, t, WriteBack(left)) else Goto(s, t, ClearOwner)
      case WriteBack(left) => Goto(s.(count := left), t, Outside)
      case ClearOwner => Goto(s.(owner := NOBODY), t, ClearCount)
      case ClearCount => Goto(s.(count := 0), t, Outside)
  }

  /** A schedule says which thread does what, step after step. */
  predicate Legal(limit: nat, s: State, run: seq<Step>)
    decreases |run|
  {
    run == [] || (Enabled(limit, s, run[0]) && Legal(limit, Next(s, run[0]), run[1..]))
  }

  function After(limit: nat, s: State, run: seq<Step>): State
    requires Legal(limit, s, run)
    decreases |run|
  {
    if run == [] then s else After(limit, Next(s, run[0]), run[1..])
  }

  /** The thread is between a returned Lock and its outermost Unlock. */
  predicate InSection(s: State, t: Tid) {
    t in s.threads && 0 < s.threads[t].scopes
  }

  ghost predicate Exclusive(s: State) {
    forall t, u :: InSection(s, t) && InSection(s, u) ==> t == u
  }

  /** The thread holds the lock: from the winning compare-exchange to the clearing write. */
  predicate Holds(s: State, t: Tid) {
    && t in s.threads
    && var me := s.threads[t];
    || 0 < me.scopes
    || me.pc.ReadCount? || me.pc.WriteCount? || me.pc.SetOwner?
    || me.pc.ReadForUnlock? || me.pc.WriteBack? || me.pc.ClearOwner? || me.pc.ClearCount?
  }

  lemma {:induction false} RunsCompose(limit: nat, s: State, first: seq<Step>, second: seq<Step>)
    requires Legal(limit, s, first)
    requires Legal(limit, After(limit, s, first), second)
    ensures Legal(limit, s, first + second)
    ensures After(limit, s, first + second) == After(limit, After(limit, s, first), second)
    decreases |first|
  {
    if first == [] {
      assert first + second == second;
    } else {
      assert (first + second)[0] == first[0] && (first + second)[1..] == first[1..] + second;
      RunsCompose(limit, Next(s, first[0]), first[1..], second);
    }
  }
}
