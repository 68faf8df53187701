/** The step machine refines an atomic recursive lock. */
module SpinLockRefinement {
  import opened SpinLock
  import opened SpinLockSafety

  datatype Lock = Free | Held(owner: Tid, depth: int)

  datatype Op = Acquire(t: Tid) | Reenter(t: Tid) | LeaveInner(t: Tid) | LeaveLast(t: Tid)

  predicate Permits(l: Lock, op: Op) {
    match op
    case Acquire(_) => l.Free?
    case Reenter(t) => l.Held? && l.owner == t
    case LeaveInner(t) => l.Held? && l.owner == t && 1 < l.depth
    case LeaveLast(t) => l.Held? && l.owner == t && l.depth == 1
  }

  function Apply(l: Lock, op: Op): Lock
    requires Permits(l, op)
  {
    match op
    case Acquire(t) => Held(t, 1)
    case Reenter(t) => Held(t, l.depth + 1)
    case LeaveInner(t) => Held(t, l.depth - 1)
    case LeaveLast(_) => Free
  }

  predicate Replays(l: Lock, ops: seq<Op>)
    decreases |ops|
  {
    ops == [] || (Permits(l, ops[0]) && Replays(Apply(l, ops[0]), ops[1..]))
  }

  function Replay(l: Lock, ops: seq<Op>): Lock
    requires Replays(l, ops)
    decreases |ops|
  {
    if ops == [] then l else Replay(Apply(l, ops[0]), ops[1..])
  }

  /** The operation a step commits, read off the program point alone: the winning
      compare-exchange, the re-entrant increment's write, the decrement's write and the
      clearing write of `_count`. Every other step commits nothing. */
  function Commit(s: State, e: Step): seq<Op>
    requires e.who in s.threads
  {
    var t := e.who;
    if !e.action.Advance? then []
    else match s.threads[t].pc
      case TryEnter => if s.count == 0 then [Acquire(t)] else []
      case WriteCount(_) => [Reenter(t)]
      case WriteBack(_) => [LeaveInner(t)]
      case ClearCount => [LeaveLast(t)]
      case _ => []
  }

  function Commits(limit: nat, s: State, run: seq<Step>): seq<Op>
    requires Legal(limit, s, run)
    decreases |run|
  {
    if run == [] then [] else Commit(s, run[0]) + Commits(limit, Next(s, run[0]), run[1..])
  }

  /** The atomic lock a state stands for. */
  ghost function Abs(s: State): Lock {
    if s.count != 0 && exists t :: Holds(s, t) then
      var h :| Holds(s, h);
      Held(h, s.count)
    else Free
  }

  lemma AbsHeld(limit: nat, s: State, t: Tid)
    requires Inv(limit, s) && Holds(s, t) && s.count != 0
    ensures Abs(s) == Held(t, s.count)
  {
  }

  lemma OneOp(l: Lock, op: Op)
    requires Permits(l, op)
    ensures Replays(l, [op]) && Replay(l, [op]) == Apply(l, op)
  {
    assert [op][1..] == [];
  }

  /** A step of the holder: it stays the holder, one deeper or not as deep, or lets go. */
  lemma HolderRefines(limit: nat, s: State, e: Step)
    requires limit < WORD
    requires Inv(limit, s) && Enabled(limit, s, e) && Holds(s, e.who)
    ensures Replays(Abs(s), Commit(s, e))
    ensures Replay(Abs(s), Commit(s, e)) == Abs(Next(s, e))
  {
    var s', t := Next(s, e), e.who;
    StepKeepsInv(limit, s, e);
    HolderStep(limit, s, e);
    assert HolderAgrees(s, t) && WithinLimit(limit, s.threads[t]);
    AbsHeld(limit, s, t);
    if Holds(s', t) { AbsHeld(limit, s', t); }
    if Commit(s, e) != [] { OneOp(Abs(s), Commit(s, e)[0]); }
  }

  /** A step of anyone else: the winning compare-exchange, or nothing. */
  lemma OutsiderRefines(limit: nat, s: State, e: Step)
    requires limit < WORD
    requires Inv(limit, s) && Enabled(limit, s, e) && !Holds(s, e.who)
    ensures Replays(Abs(s), Commit(s, e))
    ensures Replay(Abs(s), Commit(s, e)) == Abs(Next(s, e))
  {
    var s', t := Next(s, e), e.who;
    StepKeepsInv(limit, s, e);
    OutsiderStep(limit, s, e);
    if Holds(s', t) {
      AbsHeld(limit, s', t);
      OneOp(Abs(s), Commit(s, e)[0]);
    } else if s.count != 0 {
      var h :| Holds(s, h);
      OthersKept(limit, s, e, h);
      AbsHeld(limit, s, h);
      AbsHeld(limit, s', h);
    }
  }

  lemma StepRefines(limit: nat, s: State, e: Step)
    requires limit < WORD
    requires Inv(limit, s) && Enabled(limit, s, e)
    ensures Replays(Abs(s), Commit(s, e))
    ensures Replay(Abs(s), Commit(s, e)) == Abs(Next(s, e))
  {
    if Holds(s, e.who) { HolderRefines(limit, s, e); } else { OutsiderRefines(limit, s, e); }
  }

  lemma {:induction false} ReplayConcat(l: Lock, first: seq<Op>, second: seq<Op>)
    requires Replays(l, first) && Replays(Replay(l, first), second)
    ensures Replays(l, first + second)
    ensures Replay(l, first + second) == Replay(Replay(l, first), second)
    decreases |first|
  {
    if first == [] {
      assert first + second == second;
    } else {
      assert (first + second)[0] == first[0] && (first + second)[1..] == first[1..] + second;
      ReplayConcat(Apply(l, first[0]), first[1..], second);
    }
  }

  lemma {:induction false} RunRefines(limit: nat, s: State, run: seq<Step>)
    requires limit < WORD
    requires Inv(limit, s) && Legal(limit, s, run)
    ensures Replays(Abs(s), Commits(limit, s, run))
    ensures Replay(Abs(s), Commits(limit, s, run)) == Abs(After(limit, s, run))
    decreases |run|
  {
    if run != [] {
      StepRefines(limit, s, run[0]);
      StepKeepsInv(limit, s, run[0]);
      RunRefines(limit, Next(s, run[0]), run[1..]);
      ReplayConcat(Abs(s), Commit(s, run[0]), Commits(limit, Next(s, run[0]), run[1..]));
    }
  }

  /** Every interleaving of the plain reads and writes, from two zero words, is a run of the
      atomic recursive lock that starts free and ends in the lock the final state stands for. */
  lemma {:induction false} Refinement(limit: nat, ids: set<Tid>, run: seq<Step>)
    requires limit < WORD && Legal(limit, Start(ids), run)
    ensures Replays(Free, Commits(limit, Start(ids), run))
    ensures Replay(Free, Commits(limit, Start(ids), run)) == Abs(After(limit, Start(ids), run))
    ensures var s := After(limit, Start(ids), run);
            (Abs(s).Free? <==> s.count == 0) &&
            forall t :: InSection(s, t) && s.threads[t].pc.Outside? ==> Abs(s) == Held(t, s.threads[t].scopes)
  {
    RunRefines(limit, Start(ids), run);
    RunKeepsInv(limit, Start(ids), run);
    var s := After(limit, Start(ids), run);
    forall t | InSection(s, t) && s.threads[t].pc.Outside?
      ensures Abs(s) == Held(t, s.threads[t].scopes)
    {
      assert Holds(s, t) && HolderAgrees(s, t);
    }
  }

  // ---- One commit for each call ----

  function Entries(ops: seq<Op>, t: Tid): nat {
    if ops == [] then 0
    else (if ops[0] == Acquire(t) || ops[0] == Reenter(t) then 1 else 0) + Entries(ops[1..], t)
  }

  function Exits(ops: seq<Op>, t: Tid): nat {
    if ops == [] then 0
    else (if ops[0] == LeaveInner(t) || ops[0] == LeaveLast(t) then 1 else 0) + Exits(ops[1..], t)
  }

  /** Calls of Lock by `t` that returned, and calls of Unlock, in a run. */
  function Returned(limit: nat, s: State, run: seq<Step>, t: Tid): (calls: (nat, nat))
    requires Legal(limit, s, run)
    decreases |run|
  {
    if run == [] then (0, 0)
    else
      var rest := Returned(limit, Next(s, run[0]), run[1..], t);
      var now := ReturnedBy(s, run[0], t);
      (now.0 + rest.0, now.1 + rest.1)
  }

  function ReturnedBy(s: State, e: Step, t: Tid): (calls: (nat, nat))
    requires e.who in s.threads
  {
    var before := s.threads[e.who].pc;
    var after := Next(s, e).threads[e.who].pc;
    if e.who != t || !e.action.Advance? || !after.Outside? then (0, 0)
    else if before.SetOwner? || before.WriteCount? then (1, 0)
    else (0, 1)
  }

  /** A committed entry whose Lock has yet to write the owner word. */
  function Pending(s: State, t: Tid): nat {
    if t in s.threads && s.threads[t].pc.SetOwner? then 1 else 0
  }

  /** Each returned Lock committed exactly one entry while it ran and each returned Unlock
      exactly one exit; the only commit ahead of its return is a Lock about to write the
      owner word. */
  lemma {:induction false} OneCommitPerCall(limit: nat, s: State, run: seq<Step>, t: Tid)
    requires Legal(limit, s, run)
    ensures Entries(Commits(limit, s, run), t) + Pending(s, t)
         == Returned(limit, s, run, t).0 + Pending(After(limit, s, run), t)
    ensures Exits(Commits(limit, s, run), t) == Returned(limit, s, run, t).1
    decreases |run|
  {
    if run != [] {
      var s' := Next(s, run[0]);
      StepCommits(limit, s, run[0], t);
      OneCommitPerCall(limit, s', run[1..], t);
      CountsAdd(Commit(s, run[0]), Commits(limit, s', run[1..]), t);
    }
  }

  lemma CountsAdd(ops: seq<Op>, rest: seq<Op>, t: Tid)
    requires |ops| <= 1
    ensures Entries(ops + rest, t) == Entries(ops, t) + Entries(rest, t)
    ensures Exits(ops + rest, t) == Exits(ops, t) + Exits(rest, t)
  {
    if ops == [] {
      assert ops + rest == rest;
    } else {
      assert (ops + rest)[1..] == rest && ops[1..] == [];
    }
  }

  lemma StepCommits(limit: nat, s: State, e: Step, t: Tid)
    requires Enabled(limit, s, e)
    ensures |Commit(s, e)| <= 1
    ensures Entries(Commit(s, e), t) + Pending(s, t) == ReturnedBy(s, e, t).0 + Pending(Next(s, e), t)
    ensures Exits(Commit(s, e), t) == ReturnedBy(s, e, t).1
  {
  }
}
