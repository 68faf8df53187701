/** What every step of the spin lock keeps, and what follows for whole runs. */
module SpinLockSafety {
  import opened SpinLock

  /** How the two words stand to the thread that holds the lock, at each of its steps. */
  predicate HolderAgrees(s: State, t: Tid)
    requires t in s.threads
  {
    var n := s.threads[t].scopes;
    match s.threads[t].pc
    case Outside => 0 < n && s.count == n && s.owner == t
    case TryEnter => 0 < n && s.count == n && s.owner == t
    case CheckOwner => 0 < n && s.count == n && s.owner == t
    case ReadCount => 0 < n && s.count == n && s.owner == t
    case WriteCount(seen) => 0 < n && s.count == n == seen && s.owner == t
    case SetOwner => n == 0 && s.count == 1 && s.owner == NOBODY
    case ReadForUnlock => s.count == n + 1 && s.owner == t
    case WriteBack(left) => 0 < n == left && s.count == n + 1 && s.owner == t
    case ClearOwner => n == 0 && s.count == 1 && s.owner == t
    case ClearCount => n == 0 && s.count == 1 && s.owner == NOBODY
  }

  /** A thread inside Lock has room for one more scope. */
  predicate WithinLimit(limit: nat, me: Thread) {
    && me.scopes <= limit
    && (me.pc.TryEnter? || me.pc.CheckOwner? || me.pc.ReadCount? || me.pc.WriteCount? || me.pc.SetOwner?
        || me.pc.ReadForUnlock? || me.pc.WriteBack? || me.pc.ClearOwner? || me.pc.ClearCount?
        ==> me.scopes < limit)
  }

  ghost predicate Inv(limit: nat, s: State) {
    && (forall t, u :: Holds(s, t) && Holds(s, u) ==> t == u)
    && (forall t :: Holds(s, t) ==> HolderAgrees(s, t))
    && (s.count != 0 ==> exists t :: Holds(s, t))
    && (s.count == 0 ==> s.owner == NOBODY)
    && (forall t :: t in s.threads ==> WithinLimit(limit, s.threads[t]))
  }

  /** A step of a thread that does not hold the lock: it can only win the compare-exchange,
      and only when nobody holds. */
  lemma OutsiderStep(limit: nat, s: State, e: Step)
    requires Inv(limit, s) && Enabled(limit, s, e) && !Holds(s, e.who)
    ensures var s' := Next(s, e);
            || (Holds(s', e.who) && s.count == 0 && s'.threads[e.who].pc.SetOwner?
                && s'.count == 1 && s'.owner == NOBODY)
            || (!Holds(s', e.who) && s'.count == s.count && s'.owner == s.owner)
    ensures WithinLimit(limit, Next(s, e).threads[e.who])
  {
    if s.count != 0 {
      var h :| Holds(s, h);
      assert HolderAgrees(s, h) && s.owner != e.who;
    }
  }

  /** A step of the holder: it stays in agreement with the words, or lets go of both. */
  lemma HolderStep(limit: nat, s: State, e: Step)
    requires limit < WORD
    requires Inv(limit, s) && Enabled(limit, s, e) && Holds(s, e.who)
    ensures var s' := Next(s, e);
            || (Holds(s', e.who) && s'.count != 0 && HolderAgrees(s', e.who))
            || (!Holds(s', e.who) && s'.count == 0 && s'.owner == NOBODY)
    ensures WithinLimit(limit, Next(s, e).threads[e.who])
  {
    assert HolderAgrees(s, e.who);
    assert WithinLimit(limit, s.threads[e.who]);
  }

  lemma StepKeepsInv(limit: nat, s: State, e: Step)
    requires limit < WORD
    requires Inv(limit, s) && Enabled(limit, s, e)
    ensures Inv(limit, Next(s, e))
  {
    if Holds(s, e.who) { HolderKeepsInv(limit, s, e); } else { OutsiderKeepsInv(limit, s, e); }
  }

  /** A step is nobody else's business. */
  lemma OthersKept(limit: nat, s: State, e: Step, u: Tid)
    requires Enabled(limit, s, e) && u != e.who
    ensures var s' := Next(s, e);
            && (u in s'.threads <==> u in s.threads)
            && (u in s.threads ==> s'.threads[u] == s.threads[u])
            && (Holds(s', u) <==> Holds(s, u))
  {
  }

  lemma HolderKeepsInv(limit: nat, s: State, e: Step)
    requires limit < WORD
    requires Inv(limit, s) && Enabled(limit, s, e) && Holds(s, e.who)
    ensures Inv(limit, Next(s, e))
  {
    HolderStep(limit, s, e);
    forall u | u != e.who
      ensures !Holds(Next(s, e), u) && (u in Next(s, e).threads ==> WithinLimit(limit, Next(s, e).threads[u]))
    {
      OthersKept(limit, s, e, u);
    }
  }

  lemma OutsiderKeepsInv(limit: nat, s: State, e: Step)
    requires limit < WORD
    requires Inv(limit, s) && Enabled(limit, s, e) && !Holds(s, e.who)
    ensures Inv(limit, Next(s, e))
  {
    OutsiderStep(limit, s, e);
    var s' := Next(s, e);
    forall u | u != e.who
      ensures Holds(s', u) <==> Holds(s, u)
      ensures u in s'.threads ==> WithinLimit(limit, s'.threads[u])
      ensures Holds(s', u) ==> !Holds(s', e.who) && HolderAgrees(s', u)
    {
      OthersKept(limit, s, e, u);
      if Holds(s, u) { assert HolderAgrees(s, u); }
    }
  }

  lemma {:induction false} RunKeepsInv(limit: nat, s: State, run: seq<Step>)
    requires limit < WORD
    requires Inv(limit, s) && Legal(limit, s, run)
    ensures Inv(limit, After(limit, s, run))
    decreases |run|
  {
    if run != [] {
      StepKeepsInv(limit, s, run[0]);
      RunKeepsInv(limit, Next(s, run[0]), run[1..]);
    }
  }

  lemma {:induction false} Reachable(limit: nat, ids: set<Tid>, run: seq<Step>)
    requires limit < WORD && Legal(limit, Start(ids), run)
    ensures Inv(limit, After(limit, Start(ids), run))
  {
    RunKeepsInv(limit, Start(ids), run);
  }

  /** Mutual exclusion, from the winning compare-exchange to the clearing write. */
  lemma {:induction false} MutualExclusion(limit: nat, ids: set<Tid>, run: seq<Step>, t: Tid, u: Tid)
    requires limit < WORD && Legal(limit, Start(ids), run)
    requires Holds(After(limit, Start(ids), run), t) && Holds(After(limit, Start(ids), run), u)
    ensures t == u
  {
    Reachable(limit, ids, run);
  }

  /** At the unsynchronised comparison the owner word names the running thread exactly when
      that thread already holds the lock. */
  lemma {:induction false} OwnerCheckExact(limit: nat, ids: set<Tid>, run: seq<Step>, t: Tid)
    requires limit < WORD && Legal(limit, Start(ids), run)
    requires t in After(limit, Start(ids), run).threads
    requires After(limit, Start(ids), run).threads[t].pc.CheckOwner?
    ensures After(limit, Start(ids), run).owner == t <==> InSection(After(limit, Start(ids), run), t)
  {
    Reachable(limit, ids, run);
    var s := After(limit, Start(ids), run);
    if InSection(s, t) { assert Holds(s, t) && HolderAgrees(s, t); }
    if s.owner == t {
      var h :| Holds(s, h);
      assert HolderAgrees(s, h);
    }
  }

  /** While one thread holds the lock no step of another changes either word. */
  lemma {:induction false} OthersLeaveWords(limit: nat, ids: set<Tid>, run: seq<Step>, t: Tid, e: Step)
    requires limit < WORD && Legal(limit, Start(ids), run)
    requires Holds(After(limit, Start(ids), run), t) && e.who != t
    requires Enabled(limit, After(limit, Start(ids), run), e)
    ensures var s := After(limit, Start(ids), run);
            Next(s, e).count == s.count && Next(s, e).owner == s.owner
  {
    Reachable(limit, ids, run);
    var s := After(limit, Start(ids), run);
    assert HolderAgrees(s, t);
    assert !Holds(s, e.who);
  }

  /** No lost update: a value read by ++_count or by Unlock is still the value of `_count`
      when the result is written, whatever ran in between. */
  lemma {:induction false} NoLostUpdate(limit: nat, ids: set<Tid>, run: seq<Step>, t: Tid)
    requires limit < WORD && Legal(limit, Start(ids), run)
    requires t in After(limit, Start(ids), run).threads
    ensures var s := After(limit, Start(ids), run);
            var pc := s.threads[t].pc;
            && (pc.WriteCount? ==> pc.seen == s.count && s.count + 1 < WORD)
            && (pc.WriteBack? ==> pc.left == s.count - 1)
            && (pc.ClearOwner? || pc.ClearCount? ==> s.count == 1)
  {
    Reachable(limit, ids, run);
    var s := After(limit, Start(ids), run);
    assert !Holds(s, t) || HolderAgrees(s, t);
    assert WithinLimit(limit, s.threads[t]);
  }

  /** Nesting is exact: a holder that is in neither call sees its own number of live scopes
      in `_count` and its id in `_threadId`; with no scope and no call both words are 0. */
  lemma {:induction false} NestingExact(limit: nat, ids: set<Tid>, run: seq<Step>)
    requires limit < WORD && Legal(limit, Start(ids), run)
    ensures var s := After(limit, Start(ids), run);
            && (forall t :: InSection(s, t) && s.threads[t].pc.Outside? ==>
                  s.count == s.threads[t].scopes && s.owner == t)
            && ((forall t :: t in s.threads ==> s.threads[t] == Thread(Outside, 0)) ==>
                  s.count == 0 && s.owner == NOBODY)
  {
    Reachable(limit, ids, run);
    var s := After(limit, Start(ids), run);
    forall t | InSection(s, t) && s.threads[t].pc.Outside?
      ensures s.count == s.threads[t].scopes && s.owner == t
    {
      assert Holds(s, t);
    }
  }
}
