/** The socket handle of a session, through every Open, Close and destruction, whatever the
    operating system answers. */
module SessionSocket {

  const INVALID_SOCKET: int := -1

  /** What the session does to handles: a handle it obtained, a handle it closed. */
  datatype Event = Obtained(h: int) | Closed(h: int)

  /** The handles obtained and not closed since. */
  function Live(log: seq<Event>): set<int> {
    if log == [] then {}
    else LiveThen(Live(log[..|log| - 1]), log[|log| - 1])
  }

  function LiveThen(live: set<int>, e: Event): set<int> {
    match e
    case Obtained(h) => live + {h}
    case Closed(h) => live - {h}
  }

  /** Only open handles are closed. */
  predicate Disciplined(log: seq<Event>) {
    log == [] ||
    (Disciplined(log[..|log| - 1]) && Fitting(Live(log[..|log| - 1]), log[|log| - 1]))
  }

  predicate Fitting(live: set<int>, e: Event) {
    match e
    case Obtained(h) => h != INVALID_SOCKET && h !in live
    case Closed(h) => h in live
  }

  /** closesocket; on INVALID_SOCKET it has nothing to close. */
  function AfterClosing(log: seq<Event>, socket: int): seq<Event> {
    if socket == INVALID_SOCKET then log else log + [Closed(socket)]
  }

  function AfterOpening(log: seq<Event>, socket: int, made: int): seq<Event> {
    var closed := AfterClosing(log, socket);
    if made == INVALID_SOCKET then closed else closed + [Obtained(made)]
  }

  /** The session's socket is the one handle it has open, if it has any. */
  ghost predicate Tracks(log: seq<Event>, socket: int) {
    Disciplined(log) && Live(log) == if socket == INVALID_SOCKET then {} else {socket}
  }

  lemma LogStep(log: seq<Event>, e: Event)
    ensures Live(log + [e]) == LiveThen(Live(log), e)
    ensures Disciplined(log + [e]) <==> Disciplined(log) && Fitting(Live(log), e)
  {
    var after := log + [e];
    assert after != [] && after[..|after| - 1] == log && after[|after| - 1] == e;
  }

  lemma ClosingTracks(log: seq<Event>, socket: int)
    requires Tracks(log, socket)
    ensures Tracks(AfterClosing(log, socket), INVALID_SOCKET)
  {
    if socket != INVALID_SOCKET {
      LogStep(log, Closed(socket));
      assert {socket} - {socket} == {};
    }
  }

  lemma OpeningTracks(log: seq<Event>, socket: int, made: int)
    requires Tracks(log, socket)
    ensures Tracks(AfterOpening(log, socket, made), made)
  {
    ClosingTracks(log, socket);
    LogStep(AfterClosing(log, socket), Obtained(made));
    assert {} + {made} == {made};
  }

  // ---- Whole lives ----

  datatype Op = Open(made: int) | Close

  function LogAfter(log: seq<Event>, socket: int, ops: seq<Op>): (seq<Event>, int)
    decreases |ops|
  {
    if ops == [] then (log, socket)
    else match ops[0]
      case Open(made) => LogAfter(AfterOpening(log, socket, made), made, ops[1..])
      case Close => LogAfter(AfterClosing(log, socket), INVALID_SOCKET, ops[1..])
  }

  function Times(log: seq<Event>, e: Event): nat { multiset(log)[e] }

  lemma {:induction false} LiveIsDifference(log: seq<Event>, h: int)
    requires Disciplined(log)
    ensures Times(log, Obtained(h)) == Times(log, Closed(h)) + if h in Live(log) then 1 else 0
  {
    if log != [] {
      var init := log[..|log| - 1];
      assert log == init + [log[|log| - 1]];
      LiveIsDifference(init, h);
    }
  }

  /** The handles that the calls made, in order. */
  function Made(ops: seq<Op>): seq<int> {
    if ops == [] then []
    else (if ops[0].Open? && ops[0].made != -1 then [ops[0].made] else []) + Made(ops[1..])
  }

  /** The handles obtained, or closed, in the order of the log. */
  function Handles(log: seq<Event>, closed: bool): seq<int> {
    if log == [] then []
    else (if log[0].Closed? == closed then [log[0].h] else []) + Handles(log[1..], closed)
  }

  lemma {:induction false} HandlesAppend(a: seq<Event>, b: seq<Event>, closed: bool)
    ensures Handles(a + b, closed) == Handles(a, closed) + Handles(b, closed)
  {
    if a == [] {
      assert a + b == b;
    } else {
      assert (a + b)[0] == a[0] && (a + b)[1..] == a[1..] + b;
      HandlesAppend(a[1..], b, closed);
    }
  }

  lemma OneHandle(e: Event, closed: bool)
    ensures Handles([e], closed) == if e.Closed? == closed then [e.h] else []
  {
    assert [e][1..] == [];
  }

  lemma ClosingLogs(log: seq<Event>, socket: int)
    ensures var after := AfterClosing(log, socket);
            && log <= after && Handles(after, false) == Handles(log, false)
            && Handles(after, true) == Handles(log, true) + if socket == -1 then [] else [socket]
  {
    HandlesAppend(log, [Closed(socket)], false);
    HandlesAppend(log, [Closed(socket)], true);
    OneHandle(Closed(socket), false);
    OneHandle(Closed(socket), true);
  }

  lemma OpeningLogs(log: seq<Event>, socket: int, made: int)
    ensures var after := AfterOpening(log, socket, made);
            && log <= after && Handles(after, false) == Handles(log, false) + (if made == -1 then [] else [made])
            && Handles(after, true) == Handles(log, true) + if socket == -1 then [] else [socket]
  {
    ClosingLogs(log, socket);
    var closed := AfterClosing(log, socket);
    HandlesAppend(closed, [Obtained(made)], false);
    HandlesAppend(closed, [Obtained(made)], true);
    OneHandle(Obtained(made), false);
    OneHandle(Obtained(made), true);
  }

  lemma {:induction false} LogsFrom(log: seq<Event>, socket: int, ops: seq<Op>)
    ensures var (after, last) := LogAfter(log, socket, ops);
            && log <= after && Handles(after, false) == Handles(log, false) + Made(ops)
            && Handles(after, true) + (if last == -1 then [] else [last])
               == Handles(log, true) + (if socket == -1 then [] else [socket]) + Made(ops)
    decreases |ops|
  {
    if ops != [] {
      match ops[0] {
        case Open(made) =>
          OpeningLogs(log, socket, made);
          LogsFrom(AfterOpening(log, socket, made), made, ops[1..]);
        case Close =>
          ClosingLogs(log, socket);
          LogsFrom(AfterClosing(log, socket), -1, ops[1..]);
      }
    }
  }

  /** The log forgets nothing: over every sequence of opens and closes, with any results, the handles
      obtained are those that were made, in that order, and those closed are the same in the same
      order, but for the last while it is the current socket. */
  lemma LogIsComplete(ops: seq<Op>)
    ensures var (log, socket) := LogAfter([], INVALID_SOCKET, ops);
            && Handles(log, false) == Made(ops)
            && Handles(log, true) + (if socket == -1 then [] else [socket]) == Made(ops)
            && Handles(AfterClosing(log, socket), true) == Made(ops)
  {
    LogsFrom([], INVALID_SOCKET, ops);
    var (log, socket) := LogAfter([], INVALID_SOCKET, ops);
    ClosingLogs(log, socket);
  }

  lemma {:induction false} OpsTrack(log: seq<Event>, socket: int, ops: seq<Op>)
    requires Tracks(log, socket)
    ensures Tracks(LogAfter(log, socket, ops).0, LogAfter(log, socket, ops).1)
    decreases |ops|
  {
    if ops != [] {
      match ops[0] {
        case Open(made) =>
          OpeningTracks(log, socket, made);
          OpsTrack(AfterOpening(log, socket, made), made, ops[1..]);
        case Close =>
          ClosingTracks(log, socket);
          OpsTrack(AfterClosing(log, socket), INVALID_SOCKET, ops[1..]);
      }
    }
  }

  /** Over every sequence of opens and closes, with any results, a handle has been closed as
      often as it was obtained, except that the current socket is still open; after the
      destructor there is no exception. */
  lemma {:induction false} HandlesConserved(ops: seq<Op>, h: int)
    ensures var (log, socket) := LogAfter([], INVALID_SOCKET, ops);
            var final := AfterClosing(log, socket);
            && Disciplined(final)
            && Times(log, Obtained(h)) == Times(log, Closed(h)) + (if h == socket != INVALID_SOCKET then 1 else 0)
            && Times(final, Obtained(h)) == Times(final, Closed(h))
  {
    OpsTrack([], INVALID_SOCKET, ops);
    var (log, socket) := LogAfter([], INVALID_SOCKET, ops);
    ClosingTracks(log, socket);
    LiveIsDifference(log, h);
    LiveIsDifference(AfterClosing(log, socket), h);
  }
}
