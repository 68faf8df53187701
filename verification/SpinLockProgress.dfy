/** No reachable state of the spin lock is stuck: the holder can always let go, and a waiting
    thread then returns from Lock within a fixed number of its own steps. */
module SpinLockProgress {
  import opened SpinLock
  import opened SpinLockSafety

  predicate InLock(s: State, t: Tid) {
    && t in s.threads
    && var pc := s.threads[t].pc;
       pc.TryEnter? || pc.CheckOwner? || pc.ReadCount? || pc.WriteCount? || pc.SetOwner?
  }

  /** Steps a Lock still needs when nobody else moves and the lock is free or its own. */
  function StepsToEnter(s: State, t: Tid): nat
    requires InLock(s, t)
  {
    match s.threads[t].pc
    case TryEnter => if s.count == 0 then 2 else 4
    case CheckOwner => 3
    case ReadCount => 2
    case _ => 1
  }

  function Alone(t: Tid, n: nat): (run: seq<Step>)
    ensures |run| == n && forall i :: 0 <= i < n ==> run[i] == Step(t, Advance)
  {
    if n == 0 then [] else [Step(t, Advance)] + Alone(t, n - 1)
  }

  lemma {:induction false} LockAloneReturns(limit: nat, s: State, t: Tid)
    requires limit < WORD && Inv(limit, s)
    requires InLock(s, t) && (s.count == 0 || Holds(s, t))
    ensures var run := Alone(t, StepsToEnter(s, t));
            && |run| <= 4
            && Legal(limit, s, run)
            && var s' := After(limit, s, run);
               && s'.threads == s.threads[t := Thread(Outside, s.threads[t].scopes + 1)]
               && s'.owner == t && s'.count == s.threads[t].scopes + 1
    decreases StepsToEnter(s, t)
  {
    var e := Step(t, Advance);
    var s' := Next(s, e);
    if Holds(s, t) {
      HolderStep(limit, s, e);
      assert HolderAgrees(s, t) && WithinLimit(limit, s.threads[t]);
    } else {
      OutsiderStep(limit, s, e);
      if s.threads[t].pc.CheckOwner? { assert s.owner == NOBODY; }
    }
    StepKeepsInv(limit, s, e);
    var n := StepsToEnter(s, t);
    assert Alone(t, n)[1..] == Alone(t, n - 1);
    if InLock(s', t) {
      assert StepsToEnter(s', t) == n - 1;
      LockAloneReturns(limit, s', t);
    } else {
      assert n == 1;
    }
  }

  /** Steps the holder needs to finish the call it is in and leave every scope it has. */
  function StepsToLeave(me: Thread): nat {
    var n := me.scopes;
    match me.pc
    case Outside => if n == 0 then 0 else 3 * n + 1
    case TryEnter => 3 * n + 8
    case CheckOwner => 3 * n + 7
    case ReadCount => 3 * n + 6
    case WriteCount(_) => 3 * n + 5
    case SetOwner => 3 * n + 5
    case ReadForUnlock => 3 * n + 3
    case WriteBack(_) => 3 * n + 2
    case ClearOwner => 2
    case ClearCount => 1
  }

  /** What the holder does: finish the current call, then unlock scope by scope. */
  function Leaving(s: State, h: Tid): Step
    requires h in s.threads
  {
    if s.threads[h].pc.Outside? then Step(h, CallUnlock) else Step(h, Advance)
  }

  ghost predicate Drains(limit: nat, s: State, h: Tid, run: seq<Step>) {
    && h in s.threads
    && Legal(limit, s, run)
    && (forall i :: 0 <= i < |run| ==> run[i].who == h)
    && var s' := After(limit, s, run);
       && s'.count == 0 && s'.owner == NOBODY
       && s'.threads == s.threads[h := Thread(Outside, 0)]
  }

  lemma {:induction false} HolderCanLeave(limit: nat, s: State, h: Tid) returns (run: seq<Step>)
    requires limit < WORD && Inv(limit, s) && Holds(s, h)
    ensures Drains(limit, s, h, run)
    ensures |run| == StepsToLeave(s.threads[h])
    decreases StepsToLeave(s.threads[h])
  {
    var e := Leaving(s, h);
    assert HolderAgrees(s, h) && WithinLimit(limit, s.threads[h]);
    HolderStep(limit, s, e);
    StepKeepsInv(limit, s, e);
    var s' := Next(s, e);
    assert StepsToLeave(s'.threads[h]) == StepsToLeave(s.threads[h]) - 1;
    if Holds(s', h) {
      var rest := HolderCanLeave(limit, s', h);
      run := [e] + rest;
      assert run[1..] == rest;
    } else {
      run := [e];
      assert run[1..] == [];
    }
  }

  /** Freedom from deadlock: whoever waits in Lock, from any reachable state there is a way on
      in which only the holder (if there is another one) and then the waiting thread move, and
      after which Lock has returned and the waiting thread owns the lock. */
  lemma {:induction false} WaitingLockCanReturn(limit: nat, ids: set<Tid>, run: seq<Step>, t: Tid)
    returns (others: seq<Step>, own: seq<Step>)
    requires limit < WORD && Legal(limit, Start(ids), run)
    requires InLock(After(limit, Start(ids), run), t)
    ensures var s := After(limit, Start(ids), run);
            && (forall i :: 0 <= i < |others| ==> Holds(s, others[i].who) && others[i].who != t)
            && |others| <= 3 * s.count + 8
            && |own| <= 4 && (forall i :: 0 <= i < |own| ==> own[i] == Step(t, Advance))
            && Legal(limit, s, others + own)
            && var s' := After(limit, s, others + own);
               && t in s'.threads && s'.owner == t && s'.count == s'.threads[t].scopes
               && s'.threads[t] == Thread(Outside, s.threads[t].scopes + 1)
  {
    var s := After(limit, Start(ids), run);
    Reachable(limit, ids, run);
    others := [];
    if s.count != 0 && !Holds(s, t) {
      var h :| Holds(s, h);
      assert HolderAgrees(s, h);
      others := HolderCanLeave(limit, s, h);
    }
    RunKeepsInv(limit, s, others);
    var mid := After(limit, s, others);
    own := Alone(t, StepsToEnter(mid, t));
    LockAloneReturns(limit, mid, t);
    RunsCompose(limit, s, others, own);
  }
}
