/** The nesting depth the lock bears is exactly what its 32-bit counter can count. */
module SpinLockBound {
  import opened SpinLock
  import opened SpinLockSafety

  /** One whole Lock by `t`: past the compare-exchange at once, or through the owner check. */
  function OneLock(t: Tid, first: bool): seq<Step> {
    var go := Step(t, Advance);
    if first then [Step(t, CallLock), go, go] else [Step(t, CallLock), go, go, go, go]
  }

  function Nest(t: Tid, depth: nat): seq<Step> {
    if depth == 0 then [] else Nest(t, depth - 1) + OneLock(t, depth == 1)
  }

  lemma Prepend(limit: nat, s: State, e: Step, rest: seq<Step>)
    requires Enabled(limit, s, e) && Legal(limit, Next(s, e), rest)
    ensures Legal(limit, s, [e] + rest)
    ensures After(limit, s, [e] + rest) == After(limit, Next(s, e), rest)
  {
    assert ([e] + rest)[1..] == rest;
  }

  lemma FirstLock(limit: nat, s: State, t: Tid)
    requires t in s.threads && s.threads[t].pc.Outside? && s.threads[t].scopes < limit
    requires s.count == 0
    ensures Legal(limit, s, OneLock(t, true))
    ensures After(limit, s, OneLock(t, true))
         == State(1, t, s.threads[t := Thread(Outside, s.threads[t].scopes + 1)])
  {
    var go := Step(t, Advance);
    var s1 := Next(s, Step(t, CallLock));
    var s2 := Next(s1, go);
    Prepend(limit, s2, go, []);
    Prepend(limit, s1, go, [go] + []);
    Prepend(limit, s, Step(t, CallLock), [go] + ([go] + []));
    assert OneLock(t, true) == [Step(t, CallLock)] + ([go] + ([go] + []));
  }

  lemma AgainLock(limit: nat, s: State, t: Tid)
    requires t in s.threads && s.threads[t].pc.Outside? && s.threads[t].scopes < limit
    requires s.count != 0 && s.owner == t
    ensures Legal(limit, s, OneLock(t, false))
    ensures After(limit, s, OneLock(t, false))
         == State((s.count + 1) % WORD, t, s.threads[t := Thread(Outside, s.threads[t].scopes + 1)])
  {
    var go := Step(t, Advance);
    var s1 := Next(s, Step(t, CallLock));
    var s2 := Next(s1, go);
    var s3 := Next(s2, go);
    var s4 := Next(s3, go);
    Prepend(limit, s4, go, []);
    Prepend(limit, s3, go, [go] + []);
    Prepend(limit, s2, go, [go] + ([go] + []));
    Prepend(limit, s1, go, [go] + ([go] + ([go] + [])));
    Prepend(limit, s, Step(t, CallLock), [go] + ([go] + ([go] + ([go] + []))));
    assert OneLock(t, false) == [Step(t, CallLock)] + ([go] + ([go] + ([go] + ([go] + []))));
  }

  /** A thread that nests `depth` scopes finds the depth in `_count`, reduced to 32 bits. */
  lemma {:induction false} NestCounts(limit: nat, ids: set<Tid>, t: Tid, depth: nat)
    requires t in ids && depth <= limit && depth <= WORD
    ensures Legal(limit, Start(ids), Nest(t, depth))
    ensures var s := After(limit, Start(ids), Nest(t, depth));
            && s.threads == Start(ids).threads[t := Thread(Outside, depth)]
            && s.count == depth % WORD
            && s.owner == if depth == 0 then NOBODY else t
  {
    if depth != 0 {
      NestCounts(limit, ids, t, depth - 1);
      var s := After(limit, Start(ids), Nest(t, depth - 1));
      if depth == 1 { FirstLock(limit, s, t); } else { AgainLock(limit, s, t); }
      RunsCompose(limit, Start(ids), Nest(t, depth - 1), OneLock(t, depth == 1));
    }
  }

  /** At depth 2^32 the counter reads 0 and a second thread walks in. */
  lemma {:induction false} DeepNestingLetsAnotherIn(limit: nat, ids: set<Tid>, t: Tid, u: Tid)
    returns (run: seq<Step>)
    requires WORD <= limit && t in ids && u in ids && t != u
    ensures Legal(limit, Start(ids), run)
    ensures !Exclusive(After(limit, Start(ids), run))
  {
    NestCounts(limit, ids, t, WORD);
    var s := After(limit, Start(ids), Nest(t, WORD));
    FirstLock(limit, s, u);
    run := Nest(t, WORD) + OneLock(u, true);
    RunsCompose(limit, Start(ids), Nest(t, WORD), OneLock(u, true));
    var s' := After(limit, Start(ids), run);
    assert InSection(s', t) && InSection(s', u);
  }

  /** Mutual exclusion holds in every reachable state exactly when nesting stays below 2^32. */
  lemma {:induction false} ExclusionIffBelowWord(limit: nat, ids: set<Tid>, t: Tid, u: Tid)
    requires t in ids && u in ids && t != u
    ensures limit < 0x1_0000_0000
       <==> forall run :: Legal(limit, Start(ids), run) ==> Exclusive(After(limit, Start(ids), run))
  {
    if limit < WORD {
      forall run | Legal(limit, Start(ids), run)
        ensures Exclusive(After(limit, Start(ids), run))
      {
        Reachable(limit, ids, run);
        var s := After(limit, Start(ids), run);
        assert forall a :: InSection(s, a) ==> Holds(s, a);
      }
    } else {
      var run := DeepNestingLetsAnotherIn(limit, ids, t, u);
    }
  }
}
