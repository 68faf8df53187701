/** The parser object: tokens in a singly linked list, cut out of the caller's buffer in
    place, and a lookup that cuts once more. */
module StrParser {
  import opened Wrappers
  import opened CString
  import opened Tokens

  const DELIMITERS := " \t\n\r,;:][-"

  function Effective(delimiters: string): string {
    if delimiters == [] then DELIMITERS else delimiters
  }

  ghost predicate AllTerminated(s: seq<char>, starts: seq<nat>) {
    forall k :: 0 <= k < |starts| ==> Terminated(s, starts[k])
  }

  /** The lookup of `_Find`: the first token, in list order, whose present text holds the key,
      and there the first occurrence. */
  function Find(s: seq<char>, starts: seq<nat>, key: string): (r: Option<nat>) {
    if starts == [] then None
    else
      var here := FirstMatch(s, starts[0], key);
      if here.Some? then here else Find(s, starts[1..], key)
  }

  /** What KeyValue returns, and the buffer it leaves. */
  function LookUp(s: seq<char>, starts: seq<nat>, key: string, d: string): (r: (Option<nat>, seq<char>)) {
    match Find(s, starts, key)
    case None => (None, s)
    case Some(p) =>
      var b := RunEnd(s, SkipDelims(s, p, d), d);
      (Some(Resume(s, b)), CutAt(s, b))
  }

  lemma {:induction false} FoundIsTerminated(s: seq<char>, starts: seq<nat>, key: string)
    requires AllTerminated(s, starts) && NUL !in key
    ensures Find(s, starts, key).Some? ==> Terminated(s, Find(s, starts, key).value)
  {
    if starts != [] {
      FirstMatchIsFirst(s, starts[0], key);
      if FirstMatch(s, starts[0], key).Some? {
        EndFrom(s, starts[0], FirstMatch(s, starts[0], key).value);
      } else {
        FoundIsTerminated(s, starts[1..], key);
      }
    }
  }

  /** A further NUL leaves C strings C strings. */
  lemma CutTerminated(s: seq<char>, a: nat, b: nat)
    requires Terminated(s, a)
    ensures Terminated(CutAt(s, b), a)
  {
    NoNulBefore(s, a);
    EndIs(CutAt(s, b), a, if a <= b < End(s, a) then b else End(s, a));
  }

  lemma LookUpKeepsReadable(s: seq<char>, starts: seq<nat>, key: string, d: string)
    requires AllTerminated(s, starts)
    ensures AllTerminated(LookUp(s, starts, key, d).1, starts)
  {
    forall k, b: nat | 0 <= k < |starts| ensures Terminated(CutAt(s, b), starts[k]) {
      CutTerminated(s, starts[k], b);
    }
  }

  class Token {
    const buf: array<char>
    const pos: nat
    var next: Token?

    constructor (buf: array<char>, pos: nat)
      ensures this.buf == buf && this.pos == pos && next == null
    {
      this.buf := buf;
      this.pos := pos;
      next := null;
    }
  }

  /** The strtok_s call of the parsing loop. */
  method CutNext(str: array<char>, next: nat, d: string, ghost s: seq<char>, ghost found: seq<Span>)
    returns (cur: Option<nat>, context: nat, ghost t: Span)
    requires Parsed(s, d, found, str[..], next)
    modifies str
    ensures cur.None? ==> found == Spans(s, 0, d) && str[..] == Cut(s, found)
    ensures cur.Some? ==> cur.value == t.start && next < context <= str.Length
    ensures cur.Some? ==> Parsed(s, d, found + [t], str[..], context)
  {
    ghost var now := str[..];
    ParseStep(s, d, found, now, next);
    t := Span(SkipDelims(now, next, d), RunEnd(now, SkipDelims(now, next, d), d));
    cur, context := StrTok(str, next, d);
  }

  class StrParser {
    var head: Token?
    var count: int
    ghost var nodes: seq<Token>

    ghost predicate Valid()
      reads this, nodes
    {
      && Chained(nodes)
      && head == (if nodes == [] then null else nodes[0])
      && (forall i :: 0 <= i < |nodes| ==> nodes[i].buf == nodes[0].buf)
    }

    /** The list as offsets into the one buffer its tokens point into. */
    ghost function Starts(): seq<nat>
      reads this
      ensures |Starts()| == |nodes| && forall i :: 0 <= i < |nodes| ==> Starts()[i] == nodes[i].pos
    {
      var ns := nodes;
      seq(|ns|, i requires 0 <= i < |ns| => ns[i].pos)
    }

    /** The tokens' buffer still holds a C string at every token. */
    ghost predicate Readable()
      reads this, if head == null then {} else {head.buf}
    {
      head != null ==> AllTerminated(head.buf[..], Starts())
    }

    constructor ()
      ensures Valid() && nodes == [] && count == 0
    {
      head, count, nodes := null, 0, [];
    }

    /** Writes a new node through the cursor: into `head`, which drops the list there was, or
        into the last node's `next`. */
    method Append(last: Token?, buf: array<char>, pos: nat) returns (token: Token)
      requires Valid()
      requires last != null ==> nodes != [] && last == nodes[|nodes| - 1] && nodes[0].buf == buf
      modifies `head, `nodes, if last == null then {} else {last}
      ensures Valid() && fresh(token) && token.buf == buf && token.pos == pos
      ensures nodes == (if last == null then [] else old(nodes)) + [token]
    {
      token := new Token(buf, pos);
      if last == null {
        head, nodes := token, [token];
      } else {
        forall i | 0 <= i < |nodes| - 1 ensures nodes[i] != last { NoCycle(nodes, i, |nodes| - 1); }
        last.next := token;
        nodes := nodes + [token];
      }
    }

    /** In the middle of Parsing: the list is the tokens found so far, and `last` its last node. */
    ghost predicate Building(last: Token?, str: array<char>, found: seq<Span>)
      reads this
    {
      if found == [] then last == null
      else Lists(nodes, str, found) && last == nodes[|nodes| - 1]
    }

    /** One turn of the loop of Parsing: a token more at the end of the list, if there is one. */
    method NextToken(str: array<char>, next: nat, d: string, last: Token?, ghost s: seq<char>, ghost found: seq<Span>)
      returns (more: bool, context: nat, token: Token?, ghost found': seq<Span>)
      requires Valid() && Parsed(s, d, found, str[..], next) && Building(last, str, found)
      modifies str, `head, `nodes, `count, if last == null then {} else {last}
      ensures Valid() && Building(token, str, found')
      ensures !more ==> found' == found == Spans(s, 0, d) && str[..] == Cut(s, found)
      ensures !more ==> nodes == old(nodes) && head == old(head) && count == old(count)
      ensures more ==> |found'| == |found| + 1 && Parsed(s, d, found', str[..], context) && next < context <= str.Length
      ensures more ==> token != null && fresh(token) && count == old(count) + 1
                       && nodes == (if found == [] then [] else old(nodes)) + [token]
    {
      var cur;
      ghost var t;
      cur, context, t := CutNext(str, next, d, s, found);
      if cur == None { return false, context, last, found; }
      more, found' := true, found + [t];
      token := Append(last, str, cur.value);
      count := count + 1;
    }

    /** Cuts the C string in `str` into tokens. The list is replaced if there is any token
        (its old nodes are dropped, not freed) and kept if there is none; the count adds up
        over calls. */
    method Parsing(str: array<char>, delimiters: string) returns (r: int, ghost found: seq<Span>)
      requires Valid() && Terminated(str[..], 0)
      modifies this, str
      ensures Valid()
      ensures found == Spans(old(str[..]), 0, if delimiters == [] then " \t\n\r,;:][-" else delimiters)
      ensures str[..] == Cut(old(str[..]), found)
      ensures r == count == old(count) + |found|
      ensures found == [] ==> nodes == old(nodes) && head == old(head)
      ensures found != [] ==> fresh(nodes) && Lists(nodes, str, found)
    {
      var d := Effective(delimiters);
      ghost var s := str[..];
      found := [];
      var next := 0;
      var last: Token? := null;
      var more := true;
      while more
        invariant Valid() && Building(last, str, found) && count == old(count) + |found|
        invariant if more then Parsed(s, d, found, str[..], next)
                  else found == Spans(s, 0, d) && str[..] == Cut(s, found)
        invariant if found == [] then nodes == old(nodes) && head == old(head) else fresh(nodes)
        decreases more, str.Length - next
      {
        more, next, last, found := NextToken(str, next, d, last, s, found);
      }
      r := count;
    }

    /** `_Find` walks the list and runs strstr in every token. */
    method FindKey(key: string) returns (r: Option<nat>)
      requires Valid() && NUL !in key
      requires Readable()
      ensures head == null ==> r == None
      ensures head != null ==> r == Find(head.buf[..], Starts(), key)
    {
      var token := head;
      ghost var i := 0;
      while token != null
        invariant 0 <= i <= |nodes|
        invariant token == (if i == |nodes| then null else nodes[i])
        invariant head != null ==> Find(head.buf[..], Starts(), key) == Find(head.buf[..], Starts()[i..], key)
        decreases |nodes| - i
      {
        var found := StrStr(token.buf, token.pos, key);
        assert Starts()[i..][1..] == Starts()[i + 1..];
        if found != None { return found; }
        token := token.next;
        i := i + 1;
      }
      return None;
    }

    /** Offset, in the tokens' buffer, of the value that belongs to the key. */
    method KeyValue(key: Option<string>, delimiters: string) returns (r: Option<nat>)
      requires Valid() && (key.Some? ==> NUL !in key.value)
      requires Readable()
      modifies if head == null then {} else {head.buf}
      ensures key.None? || head == null ==> r == None
      ensures key.None? && head != null ==> head.buf[..] == old(head.buf[..])
      ensures key.Some? && head != null ==>
                (r, head.buf[..])
                == LookUp(old(head.buf[..]), Starts(), key.value, if delimiters == [] then " \t\n\r,;:][-" else delimiters)
      ensures Readable()
    {
      if key == None { return None; }
      var token := FindKey(key.value);
      if token == None { return None; }
      FoundIsTerminated(head.buf[..], Starts(), key.value);
      ghost var s := head.buf[..];
      LookUpKeepsReadable(s, Starts(), key.value, Effective(delimiters));
      var _, context := StrTok(head.buf, token.value, Effective(delimiters));
      r := Some(context);
    }

    /** The destructor's loop: every node of the list is deleted, once, front to back. */
    method Destroy() returns (ghost deleted: seq<Token>)
      requires Valid()
      modifies this
      ensures head == null && deleted == old(nodes)
      ensures forall i, j :: 0 <= i < j < |deleted| ==> deleted[i] != deleted[j]
    {
      ghost var all := nodes;
      deleted := [];
      while head != null
        invariant |deleted| <= |all| && deleted == all[..|deleted|] && Chained(all)
        invariant head == (if |deleted| == |all| then null else all[|deleted|])
        decreases |all| - |deleted|
      {
        var remove := head;
        head := remove.next;
        deleted := deleted + [remove];
      }
      forall i, j | 0 <= i < j < |all| ensures all[i] != all[j] { NoCycle(all, i, j); }
    }
  }

  /** The nodes point at the tokens' first characters, in order. */
  ghost predicate Lists(nodes: seq<Token>, str: array<char>, ts: seq<Span>) {
    |nodes| == |ts| && forall i :: 0 <= i < |ts| ==> nodes[i].buf == str && nodes[i].pos == ts[i].start
  }

  ghost predicate Chained(nodes: seq<Token>)
    reads nodes
  {
    && (forall i :: 0 <= i < |nodes| - 1 ==> nodes[i].next == nodes[i + 1])
    && (nodes != [] ==> nodes[|nodes| - 1].next == null)
  }

  /** A chain that ends cannot come back to a node: two equal nodes would have equal rests. */
  lemma {:induction false} NoCycle(nodes: seq<Token>, i: nat, j: nat)
    requires Chained(nodes) && i < j < |nodes|
    ensures nodes[i] != nodes[j]
    decreases |nodes| - j
  {
    assert nodes[i].next == nodes[i + 1];
    if j + 1 < |nodes| {
      assert nodes[j].next == nodes[j + 1];
      NoCycle(nodes, i + 1, j + 1);
    } else {
      assert nodes[j].next == null;
    }
  }

  /** A scan from `i` sees only what lies at or behind `i`. */
  lemma {:induction false} ScanUnchanged(s: seq<char>, c: seq<char>, i: nat, d: string)
    requires |s| == |c| && forall j :: i <= j < |s| ==> c[j] == s[j]
    ensures End(c, i) == End(s, i)
    ensures SkipDelims(c, i, d) == SkipDelims(s, i, d)
    ensures RunEnd(c, i, d) == RunEnd(s, i, d)
    decreases |s| - i
  {
    if i < |s| { ScanUnchanged(s, c, i + 1, d); }
  }

  lemma CutOneMore(s: seq<char>, found: seq<Span>, t: Span)
    requires t.stop < |s|
    ensures Cut(s, found + [t]) == CutAt(Cut(s, found), t.stop)
  {
    var more := found + [t];
    forall j: nat | j < |s| ensures Stops(more, j) <==> Stops(found, j) || j == t.stop {
      assert more[|found|] == t;
      if k :| 0 <= k < |found| && found[k].stop == j { assert more[k].stop == j; }
    }
  }

  /** The state of the parsing loop: the tokens found so far, `now` in the buffer, the scan
      at `i`. */
  ghost predicate Parsed(s: seq<char>, d: string, found: seq<Span>, now: seq<char>, i: nat) {
    forall u :: Shown(u) ==>
      && |s| == |now| && Terminated(s, i)
      && Spans(s, 0, d) == found + Spans(s, i, d)
      && now == Cut(s, found)
      && forall j :: i <= j < |s| ==> now[j] == s[j]
  }

  /** One strtok_s call of the loop: it finds no token exactly when the text is used up, and
      then changes nothing; otherwise it finds the next token of the original text and cuts
      exactly behind it. */
  lemma ParseStep(s: seq<char>, d: string, found: seq<Span>, now: seq<char>, i: nat)
    requires Parsed(s, d, found, now, i)
    ensures var a := SkipDelims(now, i, d);
            var b := RunEnd(now, a, d);
            && Terminated(now, i) && a < |now|
            && (now[a] == NUL ==> found == Spans(s, 0, d) && CutAt(now, b) == now == Cut(s, found))
            && (now[a] != NUL ==> i < Resume(now, b) <= |s|
                                  && Parsed(s, d, found + [Span(a, b)], CutAt(now, b), Resume(now, b)))
  {
    assert Shown(0);
    ScanUnchanged(s, now, i, d);
    Round(s, i, d);
    var a := SkipDelims(s, i, d);
    ScanUnchanged(s, now, a, d);
    var b := RunEnd(s, a, d);
    if s[a] == NUL {
      assert found + [] == found;
    } else {
      OneMore(found, Span(a, b), Spans(s, Resume(s, b), d));
      CutOneMore(s, found, Span(a, b));
    }
  }

  lemma OneMore(found: seq<Span>, t: Span, rest: seq<Span>)
    ensures found + ([t] + rest) == (found + [t]) + rest
  {
  }
}
