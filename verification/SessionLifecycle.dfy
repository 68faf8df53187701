/** The life of one session: its reference count, the Reference..Release brackets around the
    callbacks, and the delivery of disconnects, direct or through the job queue, under any
    interleaving of any number of threads. */
module SessionLifecycle {

  /** 2^32, the range of the count. */
  const WORD := 0x1_0000_0000

  function Up(count: int): int { (count + 1) % WORD }
  function Down(count: int): int { (count - 1) % WORD }

  /** The counter by itself. `outstanding` are the references taken less those released. */
  class RefCount {
    var count: int
    ghost var outstanding: int

    ghost predicate Valid()
      reads this
    {
      count == outstanding % WORD
    }

    constructor (count: int)
      requires 0 <= count < WORD
      ensures Valid() && outstanding == count
    {
      this.count, outstanding := count, count;
    }

    method Reference()
      requires Valid()
      modifies this
      ensures Valid() && outstanding == old(outstanding) + 1
    {
      UpAndDown(outstanding);
      outstanding := outstanding + 1;
      count := Up(count);
    }

    /** Whether OnRelease is called: exactly when no reference is left, as long as those held stay
        below 2^32. */
    method Release() returns (fired: bool)
      requires Valid()
      modifies this
      ensures Valid() && outstanding == old(outstanding) - 1
      ensures 0 <= outstanding < 0x1_0000_0000 ==> (fired <==> outstanding == 0)
      ensures fired <==> outstanding % 0x1_0000_0000 == 0
    {
      UpAndDown(outstanding);
      outstanding := outstanding - 1;
      count := Down(count);
      fired := count == 0;
    }

    /** Whether no reference is held. */
    predicate Invalid()
      requires Valid()
      reads this
      ensures 0 <= outstanding < WORD ==> (Invalid() <==> outstanding == 0)
    {
      count == 0
    }
  }

  lemma UpAndDown(n: int)
    ensures Up(n % WORD) == (n + 1) % WORD && Down(n % WORD) == (n - 1) % WORD
  {
    Rest(n % WORD, n, 1);
    Rest(n % WORD, n, -1);
  }

  lemma Rest(a: int, n: int, d: int)
    requires a == n % WORD
    ensures (a + d) % WORD == (n + d) % WORD
  {
    assert n == n / WORD * WORD + a;
    Rounds(a + d, n / WORD);
  }

  lemma {:induction false} Rounds(a: int, k: int)
    ensures (k * WORD + a) % WORD == a % WORD
  {
  }

  /** How many calls in progress, on all threads and nested ones included, stand at each
      program point; a call carries nothing else. A bracketing call (_OnConnect, _OnReconnect,
      _OnReconnectJob, _OnDisconnect) goes from opening to inBracket to its Release; a Release
      that reaches 0 goes on as OnRelease. */
  datatype Calls = Calls(
    opening: nat,         // about to Reference
    inBracket: nat,       // between Reference and Release
    releasing: nat,       // in OnRelease, before HNetIoSend::Clear
    cleared: nat,         // in OnRelease, before the job is posted or the disconnect delivered
    disconnecting: nat,   // in _Disconnected, called from OnRelease
    runningJob: nat,      // in _Disconnected, called from _OnDisconnectJob
    runningIo: nat)       // in an accept, receive or send job, before its Release

  /** Queued jobs. An accept, receive or send job, an IoJob, holds a reference of its own from its
      construction until it has run. */
  datatype Job = DisconnectJob | ReconnectJob | IoJob

  /** `io` are the references held outside the brackets and the jobs: by pending I/O and by the
      application. `ring` is whether the send buffers exist, which the first Initialize
      makes, and `crashed` whether HNetIoSend::Clear has followed a null pointer. `crossings` counts
      the releases that reached 0, `delivered` the completed calls of _Disconnected. */
  datatype State = State(count: int, single: bool, io: nat, calls: Calls, jobs: seq<Job>,
                         ring: bool, crashed: bool, crossings: nat, delivered: nat)

  /** One atomic step of some thread. `posted` is whether a job could be made, which only
      matters in single-thread mode. */
  datatype Step =
    | Begin                         // _OnConnect, or _OnDisconnect on a valid socket
    | BeginReconnect(posted: bool)  // _OnReconnect posts a job, or opens a bracket
    | Reference
    | Close                         // the bracket's Release
    | TakeRef
    | DropRef                       // a Release of a reference held outside brackets and jobs
    | PostIoJob                     // with its Reference
    | Initialize                    // a connection begins, inside a bracket or under an I/O's reference
    | Clear                         // OnRelease empties the send buffers
    | Notify(posted: bool)          // OnRelease posts the job, or calls _Disconnected
    | Finish                        // _Disconnected returns to OnRelease
    | FinishJob                     // _Disconnected returns to _OnDisconnectJob
    | FinishIo                      // an I/O job's Release
    | RunJob                        // HNet::Update runs the next job

  /** A session just constructed, in either threading mode: no reference, no call, no job, no send
      buffers. */
  ghost predicate AtRest(s: State) {
    && s.count == 0 && s.io == 0 && s.calls == NONE && s.jobs == []
    && !s.ring && !s.crashed && s.crossings == 0 && s.delivered == 0
  }

  const NONE := Calls(0, 0, 0, 0, 0, 0, 0)

  /** References taken and not yet released. */
  function Outstanding(s: State): nat {
    s.io + s.calls.inBracket + s.calls.runningIo + Queued(s.jobs, IoJob)
  }

  /** Every reference released was taken before, and never more than `limit` are held. After a
      crash nothing moves. */
  predicate Enabled(limit: nat, s: State, e: Step) {
    && !s.crashed
    && match e
    case Begin => true
    case BeginReconnect(_) => true
    case Reference => 0 < s.calls.opening && Outstanding(s) < limit
    case Close => 0 < s.calls.inBracket
    case TakeRef => Outstanding(s) < limit
    case DropRef => 0 < s.io
    case PostIoJob => s.single && Outstanding(s) < limit
    case Initialize => 0 < Outstanding(s)
    case Clear => 0 < s.calls.releasing
    case Notify(_) => 0 < s.calls.cleared
    case Finish => 0 < s.calls.disconnecting
    case FinishJob => 0 < s.calls.runningJob
    case FinishIo => 0 < s.calls.runningIo
    case RunJob => s.jobs != []
  }

  /** A Release, once the reference is gone from `io`, the brackets or the jobs: if the count
      reaches 0 the caller goes on as OnRelease. */
  function Released(s: State): State {
    var count := Down(s.count);
    if count == 0 then
      s.(count := count, calls := s.calls.(releasing := s.calls.releasing + 1), crossings := s.crossings + 1)
    else s.(count := count)
  }

  function Next(limit: nat, s: State, e: Step): State
    requires Enabled(limit, s, e)
  {
    var c := s.calls;
    match e
    case Begin => s.(calls := c.(opening := c.opening + 1))
    case BeginReconnect(posted) =>
      if s.single && posted then s.(jobs := s.jobs + [ReconnectJob])
      else s.(calls := c.(opening := c.opening + 1))
    case Reference => s.(count := Up(s.count), calls := c.(opening := c.opening - 1, inBracket := c.inBracket + 1))
    case Close => Released(s.(calls := c.(inBracket := c.inBracket - 1)))
    case TakeRef => s.(count := Up(s.count), io := s.io + 1)
    case DropRef => Released(s.(io := s.io - 1))
    case PostIoJob => s.(count := Up(s.count), jobs := s.jobs + [IoJob])
    case Initialize => s.(ring := true)
    case Clear =>
      if s.ring then s.(calls := c.(releasing := c.releasing - 1, cleared := c.cleared + 1))
      else s.(crashed := true)
    case Notify(posted) =>
      if s.single && posted then
        s.(calls := c.(cleared := c.cleared - 1), jobs := s.jobs + [DisconnectJob])
      else s.(calls := c.(cleared := c.cleared - 1, disconnecting := c.disconnecting + 1))
    case Finish => s.(calls := c.(disconnecting := c.disconnecting - 1), delivered := s.delivered + 1)
    case FinishJob => s.(calls := c.(runningJob := c.runningJob - 1), delivered := s.delivered + 1)
    case FinishIo => Released(s.(calls := c.(runningIo := c.runningIo - 1)))
    case RunJob =>
      match s.jobs[0]
      case DisconnectJob => s.(calls := c.(runningJob := c.runningJob + 1), jobs := s.jobs[1..])
      case ReconnectJob => s.(calls := c.(opening := c.opening + 1), jobs := s.jobs[1..])
      case IoJob => s.(calls := c.(runningIo := c.runningIo + 1), jobs := s.jobs[1..])
  }

  predicate Legal(limit: nat, s: State, run: seq<Step>)
    decreases |run|
  {
    run == [] || (Enabled(limit, s, run[0]) && Legal(limit, Next(limit, s, run[0]), run[1..]))
  }

  function After(limit: nat, s: State, run: seq<Step>): State
    requires Legal(limit, s, run)
    decreases |run|
  {
    if run == [] then s else After(limit, Next(limit, s, run[0]), run[1..])
  }

  // ---- What every step keeps ----

  function Queued(jobs: seq<Job>, j: Job): nat {
    if jobs == [] then 0 else (if jobs[0] == j then 1 else 0) + Queued(jobs[1..], j)
  }

  lemma {:induction false} QueuedAppend(jobs: seq<Job>, last: Job, j: Job)
    ensures Queued(jobs + [last], j) == Queued(jobs, j) + if last == j then 1 else 0
  {
    if jobs == [] {
      assert [last][1..] == [] && jobs + [last] == [last];
    } else {
      assert (jobs + [last])[0] == jobs[0] && (jobs + [last])[1..] == jobs[1..] + [last];
      QueuedAppend(jobs[1..], last, j);
    }
  }

  /** Bodies of OnRelease and _OnDisconnectJob still in progress. */
  function InProgress(s: State): nat {
    s.calls.releasing + s.calls.cleared + s.calls.disconnecting + s.calls.runningJob
  }

  predicate Counted(s: State) {
    s.count == Outstanding(s) % WORD
  }

  predicate Conserved(s: State) {
    s.crossings == s.delivered + Queued(s.jobs, DisconnectJob) + InProgress(s)
  }

  /** Before the first Initialize no crossing gets beyond HNetIoSend::Clear. */
  predicate HeldUp(s: State) {
    && (s.crashed ==> !s.ring && 0 < s.calls.releasing)
    && (!s.ring ==> s.calls.cleared == 0 && s.calls.disconnecting == 0 && s.calls.runningJob == 0
                    && s.delivered == 0 && Queued(s.jobs, DisconnectJob) == 0)
  }

  predicate Inv(s: State) { Counted(s) && Conserved(s) && HeldUp(s) }

  lemma StepKeepsCounted(limit: nat, s: State, e: Step)
    requires Counted(s) && Enabled(limit, s, e)
    ensures Counted(Next(limit, s, e))
  {
    OutstandingAfter(limit, s, e);
    CountAfter(limit, s, e);
    UpAndDown(Outstanding(s));
  }

  predicate Takes(e: Step) { e.Reference? || e.TakeRef? || e.PostIoJob? }
  predicate Releases(e: Step) { e.Close? || e.DropRef? || e.FinishIo? }

  lemma CountAfter(limit: nat, s: State, e: Step)
    requires Enabled(limit, s, e)
    ensures Next(limit, s, e).count == if Takes(e) then Up(s.count) else if Releases(e) then Down(s.count) else s.count
  {
  }

  lemma OutstandingAfter(limit: nat, s: State, e: Step)
    requires Enabled(limit, s, e)
    ensures Outstanding(Next(limit, s, e)) == Outstanding(s) + if Takes(e) then 1 else if Releases(e) then -1 else 0
  {
    IoJobsAfter(limit, s, e);
  }

  lemma IoJobsAfter(limit: nat, s: State, e: Step)
    requires Enabled(limit, s, e)
    ensures var c, d := s.calls.runningIo + Queued(s.jobs, IoJob),
                        Next(limit, s, e).calls.runningIo + Queued(Next(limit, s, e).jobs, IoJob);
            d == if e.PostIoJob? then c + 1 else if e.FinishIo? then c - 1 else c
  {
    match e {
      case BeginReconnect(_) => QueuedAppend(s.jobs, ReconnectJob, IoJob);
      case PostIoJob => QueuedAppend(s.jobs, IoJob, IoJob);
      case Notify(_) => QueuedAppend(s.jobs, DisconnectJob, IoJob);
      case _ =>
    }
  }

  lemma StepKeepsConserved(limit: nat, s: State, e: Step)
    requires Conserved(s) && Enabled(limit, s, e)
    ensures Conserved(Next(limit, s, e))
  {
    match e {
      case BeginReconnect(_) => QueuedAppend(s.jobs, ReconnectJob, DisconnectJob);
      case PostIoJob => QueuedAppend(s.jobs, IoJob, DisconnectJob);
      case Notify(_) => QueuedAppend(s.jobs, DisconnectJob, DisconnectJob);
      case _ =>
    }
  }

  lemma StepKeepsHeldUp(limit: nat, s: State, e: Step)
    requires HeldUp(s) && Enabled(limit, s, e)
    ensures HeldUp(Next(limit, s, e))
  {
    match e {
      case BeginReconnect(_) => QueuedAppend(s.jobs, ReconnectJob, DisconnectJob);
      case PostIoJob => QueuedAppend(s.jobs, IoJob, DisconnectJob);
      case _ =>
    }
  }

  lemma StepKeepsInv(limit: nat, s: State, e: Step)
    requires Inv(s) && Enabled(limit, s, e)
    ensures Inv(Next(limit, s, e))
  {
    StepKeepsCounted(limit, s, e);
    StepKeepsConserved(limit, s, e);
    StepKeepsHeldUp(limit, s, e);
  }

  lemma {:induction false} RunKeepsInv(limit: nat, s: State, run: seq<Step>)
    requires Inv(s) && Legal(limit, s, run)
    ensures Inv(After(limit, s, run))
    decreases |run|
  {
    if run != [] {
      StepKeepsInv(limit, s, run[0]);
      RunKeepsInv(limit, Next(limit, s, run[0]), run[1..]);
    }
  }

  lemma {:induction false} Reachable(limit: nat, start: State, run: seq<Step>)
    requires AtRest(start)
    requires Legal(limit, start, run)
    ensures Inv(After(limit, start, run))
  {
    RunKeepsInv(limit, start, run);
  }

  lemma RestKept(start: State)
    requires AtRest(start)
    ensures Inv(start)
  {
  }

  /** Disconnect conservation, in both threading modes: every release that reached 0 is
      delivered, or queued, or on its way; none is lost and none is delivered twice. */
  lemma {:induction false} DisconnectsConserved(limit: nat, start: State, run: seq<Step>)
    requires AtRest(start)
    requires Legal(limit, start, run)
    ensures var s := After(limit, start, run);
            s.crossings == s.delivered + Queued(s.jobs, DisconnectJob) + InProgress(s)
  {
    Reachable(limit, start, run);
  }

  /** The count is the number of outstanding references, reduced to 32 bits; exactly that
      number while fewer than 2^32 are held. */
  lemma {:induction false} CountIsOutstanding(limit: nat, start: State, run: seq<Step>)
    requires AtRest(start)
    requires Legal(limit, start, run)
    ensures var s := After(limit, start, run);
            && s.count == Outstanding(s) % 0x1_0000_0000
            && (Outstanding(s) < 0x1_0000_0000 ==> s.count == Outstanding(s))
  {
    Reachable(limit, start, run);
  }

  /** A step calls OnRelease. */
  predicate Fires(limit: nat, s: State, e: Step)
    requires Enabled(limit, s, e)
  {
    Next(limit, s, e).crossings != s.crossings
  }

  lemma FiresAt(limit: nat, s: State, e: Step)
    requires Counted(s) && Enabled(limit, s, e)
    ensures Fires(limit, s, e) <==> (e.Close? || e.DropRef? || e.FinishIo?) && Outstanding(Next(limit, s, e)) % WORD == 0
    ensures e.Close? || e.DropRef? || e.FinishIo? ==> Outstanding(Next(limit, s, e)) + 1 == Outstanding(s)
  {
    UpAndDown(Outstanding(s));
    OutstandingAfter(limit, s, e);
  }

  lemma FiresFrom(limit: nat, s0: State, run: seq<Step>, e: Step)
    requires Inv(s0) && Legal(limit, s0, run) && Enabled(limit, After(limit, s0, run), e)
    ensures var s := After(limit, s0, run);
            && (Fires(limit, s, e) <==> (e.Close? || e.DropRef? || e.FinishIo?) && Outstanding(Next(limit, s, e)) % WORD == 0)
            && (e.Close? || e.DropRef? || e.FinishIo? ==> Outstanding(Next(limit, s, e)) + 1 == Outstanding(s))
  {
    RunKeepsInv(limit, s0, run);
    FiresAt(limit, After(limit, s0, run), e);
  }

  /** OnRelease is called by a Release, and by no other step, exactly when the references left
      over are a multiple of 2^32. */
  lemma {:induction false} FiresIff(limit: nat, start: State, run: seq<Step>, e: Step)
    requires AtRest(start)
    requires Legal(limit, start, run) && Enabled(limit, After(limit, start, run), e)
    ensures var s := After(limit, start, run);
            && (Fires(limit, s, e) <==> (e.Close? || e.DropRef? || e.FinishIo?) && Outstanding(Next(limit, s, e)) % WORD == 0)
            && (e.Close? || e.DropRef? || e.FinishIo? ==> Outstanding(Next(limit, s, e)) + 1 == Outstanding(s))
  {
    RestKept(start);
    FiresFrom(limit, start, run, e);
  }

  lemma Prepend(limit: nat, s: State, e: Step, rest: seq<Step>)
    requires Enabled(limit, s, e) && Legal(limit, Next(limit, s, e), rest)
    ensures Legal(limit, s, [e] + rest) && After(limit, s, [e] + rest) == After(limit, Next(limit, s, e), rest)
  {
    assert ([e] + rest)[1..] == rest;
  }

  function Bracket(): seq<Step> { [Begin] + ([Reference] + [Close]) }

  lemma BracketRuns(limit: nat, s: State)
    requires Inv(s) && !s.crashed && Outstanding(s) < limit
    ensures Legal(limit, s, Bracket())
    ensures After(limit, s, Bracket()) == Released(s.(count := Up(s.count)))
  {
    var s1 := Next(limit, s, Begin);
    var s2 := Next(limit, s1, Reference);
    Prepend(limit, s2, Close, []);
    assert [Close] + [] == [Close];
    Prepend(limit, s1, Reference, [Close]);
    Prepend(limit, s, Begin, [Reference] + [Close]);
  }

  lemma BracketFires(limit: nat, s: State)
    requires Inv(s) && !s.crashed && Outstanding(s) < limit
    ensures Legal(limit, s, Bracket())
    ensures After(limit, s, Bracket()).crossings == s.crossings + (if s.count == 0 then 1 else 0)
    ensures Outstanding(After(limit, s, Bracket())) == Outstanding(s)
  {
    BracketRuns(limit, s);
    UpAndDown(Outstanding(s));
    UpAndDown(Outstanding(s) + 1);
  }

  lemma BracketFiresFrom(limit: nat, s0: State, run: seq<Step>)
    requires Inv(s0) && Legal(limit, s0, run) && !After(limit, s0, run).crashed
    requires Outstanding(After(limit, s0, run)) < limit
    ensures var s := After(limit, s0, run);
            && Legal(limit, s, Bracket())
            && After(limit, s, Bracket()).crossings == s.crossings + (if s.count == 0 then 1 else 0)
            && Outstanding(After(limit, s, Bracket())) == Outstanding(s)
  {
    RunKeepsInv(limit, s0, run);
    BracketFires(limit, After(limit, s0, run));
  }

  /** One disconnect per connection is too much to ask: from every reachable state a call of
      _OnDisconnect on a still valid socket, with nothing in between, calls OnRelease once more
      exactly when the count was 0, which Invalid tells beforehand. */
  lemma {:induction false} DisconnectFiresIff(limit: nat, start: State, run: seq<Step>)
    requires AtRest(start)
    requires Legal(limit, start, run) && !After(limit, start, run).crashed
    requires Outstanding(After(limit, start, run)) < limit
    ensures var s := After(limit, start, run);
            && Legal(limit, s, Bracket())
            && After(limit, s, Bracket()).crossings == s.crossings + (if s.count == 0 then 1 else 0)
            && Outstanding(After(limit, s, Bracket())) == Outstanding(s)
  {
    RestKept(start);
    BracketFiresFrom(limit, start, run);
  }

  // ---- The two threading modes ----

  function Count(run: seq<Step>, p: Step -> bool): nat {
    if run == [] then 0 else (if p(run[0]) then 1 else 0) + Count(run[1..], p)
  }

  predicate IsBegin(e: Step) { e.Begin? }
  predicate IsBeginReconnect(e: Step) { e.BeginReconnect? }
  predicate IsReference(e: Step) { e.Reference? }
  predicate IsNotify(e: Step) { e.Notify? }
  predicate IsFinish(e: Step) { e.Finish? }
  predicate IsFinishJob(e: Step) { e.FinishJob? }
  predicate IsFinishIo(e: Step) { e.FinishIo? }
  predicate IsRunJob(e: Step) { e.RunJob? }
  predicate ReconnectNotPosted(e: Step) { e.BeginReconnect? && !e.posted }
  predicate NotifyNotPosted(e: Step) { e.Notify? && !e.posted }

  lemma {:induction false} DirectFrom(limit: nat, s: State, run: seq<Step>)
    requires Legal(limit, s, run) && !s.single && s.jobs == [] && s.calls.runningJob == 0
    ensures var t := After(limit, s, run);
            && t.jobs == [] && t.calls.runningJob == 0
            && t.calls.opening + Count(run, IsReference)
               == s.calls.opening + Count(run, IsBegin) + Count(run, IsBeginReconnect)
            && t.calls.disconnecting + Count(run, IsFinish) == s.calls.disconnecting + Count(run, IsNotify)
            && t.delivered == s.delivered + Count(run, IsFinish)
    decreases |run|
  {
    if run != [] { DirectFrom(limit, Next(limit, s, run[0]), run[1..]); }
  }

  /** In multi-thread mode nothing is ever queued: each reconnect opens a bracket at once, each
      OnRelease past the emptying calls _Disconnected itself, and only those calls deliver. */
  lemma DirectInMultiThread(limit: nat, start: State, run: seq<Step>)
    requires AtRest(start) && !start.single && Legal(limit, start, run)
    ensures var s := After(limit, start, run);
            && s.jobs == [] && s.calls.runningJob == 0
            && s.calls.opening + Count(run, IsReference) == Count(run, IsBegin) + Count(run, IsBeginReconnect)
            && s.calls.disconnecting + Count(run, IsFinish) == Count(run, IsNotify)
            && s.delivered == Count(run, IsFinish)
  {
    DirectFrom(limit, start, run);
  }

  /** The jobs a step posts in single-thread mode. */
  function PostedBy(e: Step): seq<Job> {
    match e
    case BeginReconnect(posted) => if posted then [ReconnectJob] else []
    case PostIoJob => [IoJob]
    case Notify(posted) => if posted then [DisconnectJob] else []
    case _ => []
  }

  function Posts(run: seq<Step>): seq<Job> {
    if run == [] then [] else PostedBy(run[0]) + Posts(run[1..])
  }

  /** The jobs run, of those queued at first and those posted since. */
  function Ran(jobs: seq<Job>, run: seq<Step>): seq<Job>
    requires Count(run, IsRunJob) <= |jobs + Posts(run)|
  {
    (jobs + Posts(run))[..Count(run, IsRunJob)]
  }

  function Left(jobs: seq<Job>, run: seq<Step>): seq<Job>
    requires Count(run, IsRunJob) <= |jobs + Posts(run)|
  {
    (jobs + Posts(run))[Count(run, IsRunJob)..]
  }

  /** What a step does to the queue. */
  predicate Queues(e: Step, jobs: seq<Job>, next: seq<Job>) {
    if e.RunJob? then jobs != [] && next == jobs[1..] else next == jobs + PostedBy(e)
  }

  lemma StepQueues(limit: nat, s: State, e: Step)
    requires Enabled(limit, s, e) && s.single
    ensures Queues(e, s.jobs, Next(limit, s, e).jobs) && Next(limit, s, e).single
  {
  }

  lemma RanCons(jobs: seq<Job>, next: seq<Job>, run: seq<Step>)
    requires run != [] && Queues(run[0], jobs, next)
    requires Count(run[1..], IsRunJob) <= |next + Posts(run[1..])|
    ensures Count(run, IsRunJob) <= |jobs + Posts(run)|
    ensures Left(jobs, run) == Left(next, run[1..])
    ensures Ran(jobs, run) == if run[0].RunJob? then [jobs[0]] + Ran(next, run[1..]) else Ran(next, run[1..])
  {
    if run[0].RunJob? {
      FirstOff(jobs, Posts(run[1..]), Count(run[1..], IsRunJob));
    } else {
      Regroup(jobs, PostedBy(run[0]), Posts(run[1..]));
    }
  }

  lemma FirstOff<T>(a: seq<T>, b: seq<T>, n: nat)
    requires a != [] && n <= |a[1..] + b|
    ensures (a + ([] + b))[n + 1..] == (a[1..] + b)[n..] && (a + ([] + b))[..n + 1] == [a[0]] + (a[1..] + b)[..n]
  {
  }

  lemma Regroup<T>(a: seq<T>, b: seq<T>, c: seq<T>)
    ensures a + (b + c) == (a + b) + c
  {
  }

  lemma {:induction false} QueueFrom(limit: nat, s: State, run: seq<Step>)
    requires Legal(limit, s, run) && s.single
    ensures Count(run, IsRunJob) <= |s.jobs + Posts(run)| && After(limit, s, run).jobs == Left(s.jobs, run)
    decreases |run|
  {
    if run != [] {
      StepQueues(limit, s, run[0]);
      QueueFrom(limit, Next(limit, s, run[0]), run[1..]);
      RanCons(s.jobs, Next(limit, s, run[0]).jobs, run);
    }
  }

  /** What a step in single-thread mode does to the calls. */
  lemma StepCalls(limit: nat, s: State, e: Step)
    requires Enabled(limit, s, e) && s.single
    ensures var c, d, job := s.calls, Next(limit, s, e).calls, if e.RunJob? then Queued([s.jobs[0]], ReconnectJob) else 0;
            d.opening + Count([e], IsReference)
            == c.opening + Count([e], IsBegin) + Count([e], ReconnectNotPosted) + job
    ensures var c, d, job := s.calls, Next(limit, s, e).calls, if e.RunJob? then Queued([s.jobs[0]], DisconnectJob) else 0;
            d.runningJob + Count([e], IsFinishJob) == c.runningJob + job
    ensures var c, d, job := s.calls, Next(limit, s, e).calls, if e.RunJob? then Queued([s.jobs[0]], IoJob) else 0;
            d.runningIo + Count([e], IsFinishIo) == c.runningIo + job
    ensures var c, d := s.calls, Next(limit, s, e).calls;
            d.disconnecting + Count([e], IsFinish) == c.disconnecting + Count([e], NotifyNotPosted)
    ensures Next(limit, s, e).delivered == s.delivered + Count([e], IsFinish) + Count([e], IsFinishJob)
  {
  }

  lemma {:induction false} CallsFrom(limit: nat, s: State, run: seq<Step>)
    requires Legal(limit, s, run) && s.single && Count(run, IsRunJob) <= |s.jobs + Posts(run)|
    ensures var t, ran := After(limit, s, run), Ran(s.jobs, run);
            && t.calls.opening + Count(run, IsReference)
               == s.calls.opening + Count(run, IsBegin) + Count(run, ReconnectNotPosted) + Queued(ran, ReconnectJob)
            && t.calls.runningJob + Count(run, IsFinishJob) == s.calls.runningJob + Queued(ran, DisconnectJob)
            && t.calls.runningIo + Count(run, IsFinishIo) == s.calls.runningIo + Queued(ran, IoJob)
            && t.calls.disconnecting + Count(run, IsFinish) == s.calls.disconnecting + Count(run, NotifyNotPosted)
            && t.delivered == s.delivered + Count(run, IsFinish) + Count(run, IsFinishJob)
    decreases |run|
  {
    if run != [] {
      StepQueues(limit, s, run[0]);
      StepCalls(limit, s, run[0]);
      QueueFrom(limit, Next(limit, s, run[0]), run[1..]);
      CallsFrom(limit, Next(limit, s, run[0]), run[1..]);
      RanCons(s.jobs, Next(limit, s, run[0]).jobs, run);
    }
  }

  /** In single-thread mode jobs run in the order in which they were posted, each once; a reconnect
      job opens a bracket, a disconnect job calls _Disconnected. OnRelease calls it only when no job
      could be made, and so, while one always can, never; then only jobs deliver. */
  lemma QueuedInSingleThread(limit: nat, start: State, run: seq<Step>)
    requires AtRest(start) && start.single && Legal(limit, start, run)
    ensures Count(run, IsRunJob) <= |Posts(run)|
    ensures var s, n := After(limit, start, run), Count(run, IsRunJob);
            && s.jobs == Posts(run)[n..]
            && s.calls.opening + Count(run, IsReference)
               == Count(run, IsBegin) + Count(run, ReconnectNotPosted) + Queued(Posts(run)[..n], ReconnectJob)
            && s.calls.runningJob + Count(run, IsFinishJob) == Queued(Posts(run)[..n], DisconnectJob)
            && s.calls.runningIo + Count(run, IsFinishIo) == Queued(Posts(run)[..n], IoJob)
            && s.calls.disconnecting + Count(run, IsFinish) == Count(run, NotifyNotPosted)
            && s.delivered == Count(run, IsFinish) + Count(run, IsFinishJob)
    ensures (forall e <- run :: e.Notify? ==> e.posted) ==>
              var s := After(limit, start, run); s.calls.disconnecting == 0 && s.delivered == Count(run, IsFinishJob)
  {
    QueueFrom(limit, start, run);
    CallsFrom(limit, start, run);
    assert [] + Posts(run) == Posts(run);
    if forall e <- run :: e.Notify? ==> e.posted { NoneIn(run, NotifyNotPosted); }
  }

  lemma {:induction false} NoneIn(run: seq<Step>, p: Step -> bool)
    requires forall e <- run :: !p(e)
    ensures Count(run, p) == 0
  {
    if run != [] { NoneIn(run[1..], p); }
  }

  // ---- Brackets ----

  /** No OnRelease is called while a bracket stays open, an I/O job is queued or runs, or a reference
      is held outside of them. */
  ghost predicate BracketSafe(limit: nat, start: State) {
    forall run, e ::
      Legal(limit, start, run) && Enabled(limit, After(limit, start, run), e)
      && Fires(limit, After(limit, start, run), e)
      ==> Unheld(Next(limit, After(limit, start, run), e))
  }

  predicate Unheld(s: State) {
    s.calls.inBracket == 0 && s.calls.runningIo == 0 && IoJob !in s.jobs && s.io == 0
  }

  lemma {:induction false} NoneQueued(jobs: seq<Job>, j: Job)
    ensures Queued(jobs, j) == 0 <==> j !in jobs
  {
    if jobs != [] { NoneQueued(jobs[1..], j); }
  }

  function TakeAll(n: nat): (run: seq<Step>)
    ensures |run| == n
  {
    if n == 0 then [] else [TakeRef] + TakeAll(n - 1)
  }

  lemma {:induction false} TakesCount(limit: nat, s: State, n: nat)
    requires Inv(s) && !s.crashed && Outstanding(s) + n <= limit
    ensures Legal(limit, s, TakeAll(n)) && Inv(After(limit, s, TakeAll(n)))
    ensures var s' := After(limit, s, TakeAll(n)); s' == s.(io := s.io + n, count := s'.count)
    decreases n
  {
    if n != 0 {
      assert TakeAll(n)[1..] == TakeAll(n - 1);
      StepKeepsInv(limit, s, TakeRef);
      TakesCount(limit, Next(limit, s, TakeRef), n - 1);
    }
  }

  /** A step to `s'` and then `n` further references. */
  lemma StepAndTake(limit: nat, s: State, e: Step, s': State, n: nat)
    requires Enabled(limit, s, e) && s' == Next(limit, s, e)
    requires Inv(s') && !s'.crashed && Outstanding(s') + n <= limit
    ensures Legal(limit, s, [e] + TakeAll(n)) && Inv(After(limit, s, [e] + TakeAll(n)))
    ensures var t := After(limit, s, [e] + TakeAll(n)); t == s'.(io := s'.io + n, count := t.count)
  {
    TakesCount(limit, s', n);
    Prepend(limit, s, e, TakeAll(n));
  }

  /** One open bracket, and `n` further references. */
  lemma {:induction false} OpenAndTake(limit: nat, start: State, n: nat) returns (run: seq<Step>)
    requires AtRest(start)
    requires n < limit
    ensures Legal(limit, start, run)
    ensures var s := After(limit, start, run);
            Inv(s) && !s.crashed && s.calls == NONE.(inBracket := 1) && s.io == n && s.jobs == []
  {
    run := Opened(limit, start, n);
  }

  lemma {:induction false} Opened(limit: nat, s: State, n: nat) returns (run: seq<Step>)
    requires s.calls == NONE && s.jobs == [] && s.io == 0 && s.count == 0 && !s.crashed && Inv(s) && n < limit
    ensures Legal(limit, s, run)
    ensures var t := After(limit, s, run);
            Inv(t) && !t.crashed && t.calls == NONE.(inBracket := 1) && t.io == n && t.jobs == []
  {
    var s1 := Next(limit, s, Begin);
    StepKeepsInv(limit, s, Begin);
    StepKeepsInv(limit, s1, Reference);
    var s2 := Next(limit, s1, Reference);
    StepAndTake(limit, s1, Reference, s2, n);
    Prepend(limit, s, Begin, [Reference] + TakeAll(n));
    run := [Begin] + ([Reference] + TakeAll(n));
  }

  /** With a bracket open and 2^32 further references, releasing one of them reaches 0. */
  lemma {:induction false} TooManyReferences(limit: nat, start: State) returns (run: seq<Step>)
    requires AtRest(start)
    requires WORD < limit
    ensures Legal(limit, start, run)
    ensures var s := After(limit, start, run);
            && Enabled(limit, s, DropRef)
            && Fires(limit, s, DropRef) && 0 < Next(limit, s, DropRef).calls.inBracket
  {
    run := OpenAndTake(limit, start, WORD);
  }

  /** Bracket safety is exact: in every interleaving OnRelease waits for the closing Release of
      the last open bracket and for the last I/O job to have run, if and only if never more than 2^32
      references are held at once. */
  lemma {:induction false} BracketSafeIff(limit: nat, start: State)
    requires AtRest(start)
    ensures BracketSafe(limit, start) <==> limit <= 0x1_0000_0000
  {
    if limit <= WORD {
      forall run, e | Legal(limit, start, run) && Enabled(limit, After(limit, start, run), e)
                      && Fires(limit, After(limit, start, run), e)
        ensures Unheld(Next(limit, After(limit, start, run), e))
      {
        FiresIff(limit, start, run, e);
        WithinLimit(limit, start, run);
        NoneQueued(Next(limit, After(limit, start, run), e).jobs, IoJob);
      }
    } else {
      var run := TooManyReferences(limit, start);
      var e := DropRef;
    }
  }

  lemma {:induction false} WithinLimit(limit: nat, s: State, run: seq<Step>)
    requires Legal(limit, s, run) && Outstanding(s) <= limit
    ensures Outstanding(After(limit, s, run)) <= limit
    decreases |run|
  {
    if run != [] {
      OutstandingAfter(limit, s, run[0]);
      WithinLimit(limit, Next(limit, s, run[0]), run[1..]);
    }
  }

  // ---- Which disconnects can be delivered ----

  /** The process runs, and nothing is in progress and nothing queued. */
  predicate Settled(s: State) { !s.crashed && s.calls == NONE && s.jobs == [] }

  function JobWork(j: Job): nat {
    match j
    case DisconnectJob => 2
    case ReconnectJob => 7
    case IoJob => 6
  }

  function QueueWork(jobs: seq<Job>): nat {
    if jobs == [] then 0 else JobWork(jobs[0]) + QueueWork(jobs[1..])
  }

  lemma {:induction false} QueueWorkAppend(jobs: seq<Job>, j: Job)
    ensures QueueWork(jobs + [j]) == QueueWork(jobs) + JobWork(j)
  {
    if jobs == [] {
      assert jobs + [j] == [j] && [j][1..] == [];
    } else {
      assert (jobs + [j])[0] == jobs[0] && (jobs + [j])[1..] == jobs[1..] + [j];
      QueueWorkAppend(jobs[1..], j);
    }
  }

  /** Steps left before everything begun and everything queued has run to its end. */
  function Work(s: State): nat {
    var c := s.calls;
    6 * c.opening + 5 * c.inBracket + 4 * c.releasing + 3 * c.cleared + c.disconnecting + c.runningJob + 5 * c.runningIo
    + QueueWork(s.jobs)
  }

  /** The next step of something already begun or queued. */
  function Onward(s: State): Step {
    if 0 < s.calls.inBracket then Close
    else if 0 < s.calls.runningIo then FinishIo
    else if s.jobs != [] then RunJob
    else if 0 < s.calls.opening then Reference
    else if 0 < s.calls.releasing then Clear
    else if 0 < s.calls.cleared then Notify(true)
    else if 0 < s.calls.disconnecting then Finish
    else FinishJob
  }

  lemma OnwardWorks(limit: nat, s: State)
    requires s.ring && !s.crashed && !Settled(s) && s.io < limit
    ensures Enabled(limit, s, Onward(s)) && Work(Next(limit, s, Onward(s))) < Work(s)
    ensures var next := Next(limit, s, Onward(s)); next.io == s.io && next.ring && !next.crashed
  {
    QueueWorkAppend(s.jobs, DisconnectJob);
  }

  lemma {:induction false} Settle(limit: nat, s: State) returns (onward: seq<Step>)
    requires s.ring && !s.crashed && s.io < limit
    ensures |onward| <= Work(s) && Legal(limit, s, onward) && Initialize !in onward
    ensures var s' := After(limit, s, onward); Settled(s') && s'.io == s.io && s.crossings <= s'.crossings
    decreases Work(s)
  {
    onward := [];
    if !Settled(s) {
      OnwardWorks(limit, s);
      var rest := Settle(limit, Next(limit, s, Onward(s)));
      Prepend(limit, s, Onward(s), rest);
      onward := [Onward(s)] + rest;
    }
  }

  lemma {:induction false} RingIff(limit: nat, s: State, run: seq<Step>)
    requires Legal(limit, s, run)
    ensures After(limit, s, run).ring <==> s.ring || Initialize in run
    decreases |run|
  {
    if run != [] { RingIff(limit, Next(limit, s, run[0]), run[1..]); }
  }

  /** A crossing that stands before HNetIoSend::Clear stays there, or the process ends, until the
      buffers exist. */
  lemma {:induction false} StaysHeldUp(limit: nat, s: State, onward: seq<Step>)
    requires Legal(limit, s, onward) && Initialize !in onward && !s.ring && (s.crashed || 0 < s.calls.releasing)
    ensures var s' := After(limit, s, onward); !s'.ring && (s'.crashed || 0 < s'.calls.releasing)
    decreases |onward|
  {
    if onward != [] { StaysHeldUp(limit, Next(limit, s, onward[0]), onward[1..]); }
  }

  /** A release that has reached 0 and stands before HNetIoSend::Clear can still be delivered, with
      no Initialize to come, exactly when there has been one: then everything begun and queued can
      run to its end, no new call and no reference outside the brackets being taken, and every
      crossing there has been is delivered. */
  lemma {:induction false} CanSettleIff(limit: nat, start: State, run: seq<Step>)
    requires AtRest(start)
    requires Legal(limit, start, run) && After(limit, start, run).io < limit
    requires After(limit, start, run).calls.releasing > 0
    ensures var s := After(limit, start, run);
            (exists onward :: && Legal(limit, s, onward) && Initialize !in onward
                              && Settled(After(limit, s, onward))
                              && After(limit, s, onward).delivered == After(limit, s, onward).crossings)
            <==> Initialize in run
  {
    var s := After(limit, start, run);
    Reachable(limit, start, run);
    RingIff(limit, start, run);
    if s.ring {
      var onward := Settle(limit, s);
      RunKeepsInv(limit, s, onward);
    } else {
      forall onward | Legal(limit, s, onward) && Initialize !in onward ensures !Settled(After(limit, s, onward)) {
        StaysHeldUp(limit, s, onward);
      }
    }
  }

  /** Once there has been an Initialize, from every reachable state the calls in progress and the
      queue can run to their end in a bounded number of steps, and then every crossing there has
      been is delivered. */
  lemma {:induction false} CanSettle(limit: nat, start: State, run: seq<Step>) returns (onward: seq<Step>)
    requires AtRest(start)
    requires Legal(limit, start, run) && After(limit, start, run).io < limit
    requires Initialize in run
    ensures var s := After(limit, start, run);
            && |onward| <= Work(s)
            && Legal(limit, s, onward)
            && var s' := After(limit, s, onward);
               Settled(s') && s'.io == s.io && s'.crossings == s'.delivered && s.crossings <= s'.crossings
  {
    Reachable(limit, start, run);
    RingIff(limit, start, run);
    var s := After(limit, start, run);
    onward := Settle(limit, s);
    RunKeepsInv(limit, s, onward);
  }

  // ---- When the process ends in OnRelease ----

  /** Some OnRelease empties the send buffers before the first Initialize has made them. */
  ghost predicate ClearsFirst(ring: bool, run: seq<Step>) {
    !ring && exists k :: 0 <= k < |run| && run[k] == Clear && Initialize !in run[..k]
  }

  lemma ClearsFirstStep(ring: bool, run: seq<Step>)
    requires run != []
    ensures ClearsFirst(ring, run)
            <==> !ring && (run[0] == Clear || ClearsFirst(ring || run[0] == Initialize, run[1..]))
  {
    var rest := run[1..];
    forall k | 0 <= k < |rest|
      ensures Initialize !in run[..k + 1] <==> run[0] != Initialize && Initialize !in rest[..k]
    {
      assert run[..k + 1] == [run[0]] + rest[..k];
    }
    if !ring {
      if run[0] == Clear { assert run[..0] == []; }
      if k :| 0 <= k < |run| && run[k] == Clear && Initialize !in run[..k] && k > 0 { assert rest[k - 1] == Clear; }
      if k :| 0 <= k < |rest| && rest[k] == Clear && Initialize !in rest[..k] { assert run[k + 1] == Clear; }
    }
  }

  lemma {:induction false} CrashedAfterIff(limit: nat, s: State, run: seq<Step>)
    requires Legal(limit, s, run)
    ensures After(limit, s, run).crashed <==> s.crashed || ClearsFirst(s.ring, run)
    decreases |run|
  {
    if run != [] {
      ClearsFirstStep(s.ring, run);
      CrashedAfterIff(limit, Next(limit, s, run[0]), run[1..]);
    }
  }

  /** The process ends in OnRelease in exactly the runs in which one empties the buffers before the
      first Initialize, and until the first Initialize no disconnect is delivered or queued. */
  lemma {:induction false} CrashedIff(limit: nat, start: State, run: seq<Step>)
    requires AtRest(start)
    requires Legal(limit, start, run)
    ensures var s := After(limit, start, run);
            && (s.crashed <==> exists k :: 0 <= k < |run| && run[k] == Clear && Initialize !in run[..k])
            && (Initialize !in run ==> s.delivered == 0 && Queued(s.jobs, DisconnectJob) == 0)
  {
    CrashedAfterIff(limit, start, run);
    if Initialize !in run { NothingBefore(limit, start, run); }
  }

  lemma NothingBefore(limit: nat, start: State, run: seq<Step>)
    requires AtRest(start)
    requires Legal(limit, start, run) && Initialize !in run
    ensures var s := After(limit, start, run); s.delivered == 0 && Queued(s.jobs, DisconnectJob) == 0
  {
    Reachable(limit, start, run);
    RingIff(limit, start, run);
  }
}
