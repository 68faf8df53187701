/** The two header lines the WebSocket handshake reads out of an HTTP request. */
module Handshake {
  import opened Wrappers
  import opened CString
  import opened Tokens
  import opened StrParser
  import opened WordLayout
  import opened KeyValue

  const LINES := "\r\n"
  const VALUE := " "
  const KEY := "Sec-WebSocket-Key:"
  const PROTOCOL := "Sec-WebSocket-Protocol:"

  /** A header line: its name, a blank, its value. */
  function Line(name: string, value: string): string { name + [' '] + value }

  /** A request of any lines, among them the two the handshake looks for; neither name occurs in a
      line that comes before its own, except that the protocol's may occur in the key's value. */
  ghost predicate Request(text: string, lines: seq<Word>, tail: string, i: nat, j: nat,
                          key: string, protocol: string) {
    && text == TextOf(lines, tail) && Apart(lines, tail, LINES)
    && i < |lines| && j < |lines| && i != j
    && lines[i].text == Line(KEY, key) && lines[j].text == Line(PROTOCOL, protocol)
    && (forall k :: 0 <= k < i ==> !Occurs(KEY, lines[k].text))
    && (forall k :: 0 <= k < j && k != i ==> !Occurs(PROTOCOL, lines[k].text))
  }

  /** What one parse and two lookups find, and the buffer they leave. */
  ghost function Fields(s: seq<char>): (Option<nat>, Option<nat>, seq<char>) {
    var ts := Spans(s, 0, LINES);
    var first := LookUp(Cut(s, ts), StartsOf(ts), KEY, VALUE);
    var second := LookUp(first.1, StartsOf(ts), PROTOCOL, VALUE);
    (first.0, second.0, second.1)
  }

  /** `r` is the place of a C string that reads `value`. */
  ghost predicate Reads(c: seq<char>, r: Option<nat>, value: string) {
    r.Some? && Terminated(c, r.value) && Text(c, r.value) == value
  }

  // ---- Lookups among lines ----

  /** A C string without a NUL in it lies in the buffer. */
  ghost predicate Lies(c: seq<char>, at: nat, t: string) {
    Piece(c, at, t) && at + |t| < |c| && c[at + |t|] == NUL && NUL !in t
  }

  /** The tokens' texts, one behind the other. */
  ghost predicate Placed(c: seq<char>, starts: seq<nat>, texts: seq<string>) {
    && |starts| == |texts|
    && (forall k :: 0 <= k < |texts| ==> Lies(c, starts[k], texts[k]))
    && (forall k, m :: 0 <= k < m < |texts| ==> starts[k] + |texts[k]| < starts[m])
  }

  ghost predicate IsName(name: string) {
    name != [] && name[0] !in VALUE && NUL !in name && Free(name, VALUE)
  }

  /** The lookup of a name goes to its own line, if no line before it shows the name. */
  lemma LookUpLine(c: seq<char>, starts: seq<nat>, texts: seq<string>, i: nat, name: string, value: string)
    requires Placed(c, starts, texts) && i < |texts| && texts[i] == Line(name, value) && IsName(name)
    requires forall k :: 0 <= k < i ==> !Occurs(name, texts[k])
    ensures var at := starts[i] + |name|;
            at < |c| && LookUp(c, starts, name, VALUE) == (Some(at + 1), c[at := NUL])
  {
    forall k | 0 <= k < i ensures FirstMatch(c, starts[k], name) == None {
      PieceReads(c, starts[k], texts[k]);
      FirstMatchIsFirst(c, starts[k], name);
    }
    Parted(c, starts[i], name, ' ', value);
    PieceIsSlice(c, starts[i], name);
    assert Matches(c, starts[i], name);
    FindAt(c, starts, name, i);
    FreeScan(c, starts[i], name, VALUE);
  }

  lemma LiesKept(c: seq<char>, q: nat, at: nat, t: string)
    requires Lies(c, at, t) && q < |c| && (q < at || at + |t| < q)
    ensures Lies(c[q := NUL], at, t)
  {
    PieceKept(c, q, NUL, at, t);
  }

  /** And leaves the other lines, its name, and behind it its value. */
  lemma CutLine(c: seq<char>, starts: seq<nat>, texts: seq<string>, i: nat, name: string, value: string)
    requires Placed(c, starts, texts) && i < |texts| && texts[i] == Line(name, value)
    ensures var at := starts[i] + |name|;
            && at < |c| && Placed(c[at := NUL], starts, texts[i := name]) && Lies(c[at := NUL], at + 1, value)
  {
    var at := starts[i] + |name|;
    var c' := c[at := NUL];
    Parted(c, starts[i], name, ' ', value);
    PieceKept(c, at, NUL, starts[i], name);
    PieceKept(c, at, NUL, at + 1, value);
    assert forall x :: x in name || x in value ==> x in texts[i];
    forall k | 0 <= k < |texts| && k != i ensures Lies(c', starts[k], texts[k]) {
      LiesKept(c, at, starts[k], texts[k]);
    }
  }

  function TextsOf(lines: seq<Word>): (texts: seq<string>)
    ensures |texts| == |lines| && forall k :: 0 <= k < |lines| ==> texts[k] == lines[k].text
  {
    seq(|lines|, k requires 0 <= k < |lines| => lines[k].text)
  }

  lemma OneLies(s: seq<char>, t: string, k: nat)
    requires Terminated(s, 0) && k < |Spans(s, 0, LINES)| && NUL !in t
    requires var span := Spans(s, 0, LINES)[k];
             span.start <= span.stop == span.start + |t| <= |s| && s[span.start..span.stop] == t
    ensures Lies(Cut(s, Spans(s, 0, LINES)), Spans(s, 0, LINES)[k].start, t)
  {
    var ts := Spans(s, 0, LINES);
    TokenReads(s, 0, LINES, k);
    PieceIsSlice(s, ts[k].start, t);
    SameSlice(s, Cut(s, ts), ts[k].start, t);
  }

  lemma NoNulIn(t: string, d: string)
    requires Free(t, d)
    ensures NUL !in t
  {
    assert Shown(0);
  }

  /** Parsing places the lines. */
  lemma LinesPlaced(s: seq<char>, lines: seq<Word>, tail: string)
    requires Terminated(s, 0) && Text(s, 0) == TextOf(lines, tail) && Apart(lines, tail, LINES)
    ensures var ts := Spans(s, 0, LINES);
            Placed(Cut(s, ts), StartsOf(ts), TextsOf(lines))
  {
    var ts := Spans(s, 0, LINES);
    SpansOfWords(s, 0, lines, tail, LINES);
    SpansInOrder(s, 0, LINES);
    forall k | 0 <= k < |lines| ensures Lies(Cut(s, ts), ts[k].start, lines[k].text) {
      assert IsWord(lines[k], LINES);
      NoNulIn(lines[k].text, LINES);
      OneLies(s, lines[k].text, k);
    }
  }

  lemma NamesAre()
    ensures IsName(KEY) && IsName(PROTOCOL) && !Occurs(PROTOCOL, KEY)
  {
    assert |PROTOCOL| > |KEY|;
  }

  lemma ReadsWhere(c: seq<char>, at: nat, t: string)
    requires Lies(c, at, t)
    ensures Reads(c, Some(at), t)
  {
    PieceReads(c, at, t);
  }

  lemma FieldsRead(s: seq<char>, lines: seq<Word>, tail: string, i: nat, j: nat, key: string, protocol: string)
    requires Terminated(s, 0) && Request(Text(s, 0), lines, tail, i, j, key, protocol)
    ensures var (r, q, c) := Fields(s);
            Reads(c, r, key) && Reads(c, q, protocol)
  {
    var ts := Spans(s, 0, LINES);
    NamesAre();
    LinesPlaced(s, lines, tail);
    BothRead(Cut(s, ts), StartsOf(ts), TextsOf(lines), i, j, KEY, PROTOCOL, key, protocol);
  }

  /** Two lookups of different names among lines: each reads its own value, the first also after the
      second. */
  lemma BothRead(c: seq<char>, starts: seq<nat>, texts: seq<string>, i: nat, j: nat,
                 one: string, two: string, key: string, protocol: string)
    requires Placed(c, starts, texts) && i < |texts| && j < |texts| && i != j
    requires texts[i] == Line(one, key) && texts[j] == Line(two, protocol)
    requires IsName(one) && IsName(two) && !Occurs(two, one)
    requires forall k :: 0 <= k < i ==> !Occurs(one, texts[k])
    requires forall k :: 0 <= k < j && k != i ==> !Occurs(two, texts[k])
    ensures var first := LookUp(c, starts, one, VALUE);
            var second := LookUp(first.1, starts, two, VALUE);
            Reads(second.1, first.0, key) && Reads(second.1, second.0, protocol)
  {
    var c1, texts1 := FirstLooked(c, starts, texts, i, one, key);
    if i < j { assert starts[i] + |texts[i]| < starts[j]; }
    LookUpLine(c1, starts, texts1, j, two, protocol);
    SecondRead(c1, starts, texts1, i, j, one, two, key, protocol);
  }

  /** The first lookup, and the buffer and the texts it leaves. */
  lemma FirstLooked(c: seq<char>, starts: seq<nat>, texts: seq<string>, i: nat, name: string, value: string)
    returns (c1: seq<char>, texts1: seq<string>)
    requires Placed(c, starts, texts) && i < |texts| && texts[i] == Line(name, value) && IsName(name)
    requires forall k :: 0 <= k < i ==> !Occurs(name, texts[k])
    ensures LookUp(c, starts, name, VALUE) == (Some(starts[i] + |name| + 1), c1)
    ensures Placed(c1, starts, texts1) && Lies(c1, starts[i] + |name| + 1, value)
    ensures |texts1| == |texts| && texts1[i] == name && forall k :: 0 <= k < |texts| && k != i ==> texts1[k] == texts[k]
  {
    LookUpLine(c, starts, texts, i, name, value);
    CutLine(c, starts, texts, i, name, value);
    c1, texts1 := c[starts[i] + |name| := NUL], texts[i := name];
  }

  /** What the cut of the second lookup leaves of the first. */
  lemma SecondRead(c: seq<char>, starts: seq<nat>, texts: seq<string>, i: nat, j: nat,
                   one: string, two: string, key: string, protocol: string)
    requires Placed(c, starts, texts) && i < |texts| && j < |texts| && i != j
    requires texts[i] == one && texts[j] == Line(two, protocol)
    requires Lies(c, starts[i] + |one| + 1, key)
    requires i < j ==> starts[i] + |one| + 1 + |key| < starts[j]
    ensures var q := starts[j] + |two|;
            q < |c| && Reads(c[q := NUL], Some(starts[i] + |one| + 1), key) && Reads(c[q := NUL], Some(q + 1), protocol)
  {
    var q := starts[j] + |two|;
    CutLine(c, starts, texts, j, two, protocol);
    if j < i { assert starts[j] + |texts[j]| < starts[i]; }
    LiesKept(c, q, starts[i] + |one| + 1, key);
    ReadsWhere(c[q := NUL], starts[i] + |one| + 1, key);
    ReadsWhere(c[q := NUL], q + 1, protocol);
  }

  /** A short request, its two names spelled out. */
  function Spelled(key: string, protocol: string): string {
    "GET / HTTP/1.1" + ("\r\n" + ("Sec-WebSocket-Key:" + (" " + (key
      + ("\r\n" + ("Sec-WebSocket-Protocol:" + (" " + (protocol + "\r\n"))))))))
  }

  ghost predicate InOneLine(value: string) {
    forall c <- value :: c != '\0' && c != '\r' && c != '\n'
  }

  function SpelledLines(key: string, protocol: string): seq<Word> {
    [Word("", "GET / HTTP/1.1"), Word("\r\n", Line(KEY, key)), Word("\r\n", Line(PROTOCOL, protocol))]
  }

  lemma LineIsWord(gap: string, name: string, value: string)
    requires gap == "\r\n" && IsName(name) && InOneLine(name) && InOneLine(value)
    ensures IsWord(Word(gap, Line(name, value)), LINES)
  {
    var t := Line(name, value);
    forall k | 0 <= k < |t| ensures t[k] != NUL && t[k] !in LINES {
      assert t[k] == if k < |name| then name[k] else if k == |name| then ' ' else value[k - |name| - 1];
      assert t[k] in name || t[k] == ' ' || t[k] in value;
    }
  }

  lemma SpelledIsText(key: string, protocol: string)
    ensures Spelled(key, protocol) == TextOf(SpelledLines(key, protocol), "\r\n")
  {
    var lines := SpelledLines(key, protocol);
    var last := "\r\n" + ("Sec-WebSocket-Protocol:" + (" " + (protocol + "\r\n")));
    assert lines[1..][1..] == [lines[2]] && lines[1..][0] == lines[1] && [lines[2]][1..] == [];
    assert TextOf([lines[2]], "\r\n") == last;
    assert TextOf(lines[1..], "\r\n") == "\r\n" + ("Sec-WebSocket-Key:" + (" " + (key + last)));
  }

  lemma NotInShort(name: string, t: string)
    requires |t| < |name|
    ensures !Occurs(name, t)
  {
  }

  /** What the two lookups find in such a request, whatever the key and the protocol. */
  lemma SpelledReads(s: seq<char>, key: string, protocol: string)
    requires Terminated(s, 0) && Text(s, 0) == Spelled(key, protocol) && InOneLine(key) && InOneLine(protocol)
    ensures var (r, q, c) := Fields(s);
            Reads(c, r, key) && Reads(c, q, protocol)
  {
    var lines := SpelledLines(key, protocol);
    SpelledIsText(key, protocol);
    NamesAre();
    LineIsWord("\r\n", KEY, key);
    LineIsWord("\r\n", PROTOCOL, protocol);
    NotInShort(KEY, lines[0].text);
    NotInShort(PROTOCOL, lines[0].text);
    FieldsRead(s, lines, "\r\n", 1, 2, key, protocol);
  }

  /** Parsing leaves a C string at every token. */
  lemma TokensReadable(s: seq<char>)
    requires Terminated(s, 0)
    ensures AllTerminated(Cut(s, Spans(s, 0, LINES)), StartsOf(Spans(s, 0, LINES)))
  {
    forall k | 0 <= k < |Spans(s, 0, LINES)|
      ensures Terminated(Cut(s, Spans(s, 0, LINES)), StartsOf(Spans(s, 0, LINES))[k])
    {
      TokenReads(s, 0, LINES, k);
    }
  }

  lemma {:induction false} LinesHaveNoNul(lines: seq<Word>, tail: string)
    requires Apart(lines, tail, LINES)
    ensures NUL !in TextOf(lines, tail)
    decreases |lines|
  {
    assert Shown(0);
    if lines != [] {
      assert IsWord(lines[0], LINES);
      RestStarts(lines, tail, LINES);
      LinesHaveNoNul(lines[1..], tail);
    }
  }

  lemma EveryRequestReads(s: seq<char>, n: nat)
    requires Terminated(s, 0) && n < |s|
    ensures var (r, q, c) := Fields(s);
            s[n] == NUL ==>
              forall lines, tail, i: nat, j: nat, key, protocol :: Request(s[..n], lines, tail, i, j, key, protocol) ==>
                Reads(c, r, key) && Reads(c, q, protocol)
  {
    forall lines, tail, i: nat, j: nat, key, protocol
      | s[n] == NUL && Request(s[..n], lines, tail, i, j, key, protocol)
      ensures Reads(Fields(s).2, Fields(s).0, key) && Reads(Fields(s).2, Fields(s).1, protocol)
    {
      LinesHaveNoNul(lines, tail);
      StringIsRequestIff(s, n);
      FieldsRead(s, lines, tail, i, j, key, protocol);
    }
  }

  /** When the C string that is parsed is the request received: `n` bytes have been written to the
      front of the buffer, with no NUL behind them, so it is exactly when a NUL happens to follow;
      otherwise what the buffer held before goes on behind the request. */
  lemma StringIsRequestIff(s: seq<char>, n: nat)
    requires n < |s| && NUL !in s[..n]
    ensures Terminated(s, 0) && Text(s, 0) == s[..n] <==> s[n] == NUL
    ensures Terminated(s, 0) ==> Terminated(s, n) && Text(s, 0) == s[..n] + Text(s, n)
  {
    assert forall j :: 0 <= j < n ==> s[j] == s[..n][j] && s[..n][j] in s[..n];
    if s[n] == NUL { EndIs(s, 0, n); }
    if Terminated(s, 0) {
      NoNulBefore(s, 0);
      EndFrom(s, 0, n);
      assert s[0..End(s, 0)] == s[..n] + s[n..End(s, 0)];
    }
  }

  /** The parse and the two lookups of _Handshake on a fresh parser; without a key the protocol
      is not looked up. `buf` is the memory from the start of _buf on, up to a NUL, and its first `n`
      bytes are those received. Whatever lines a request was written from, if a NUL follows it the
      two values come back, and both are still there at the end. */
  method ReadFields(buf: array<char>, n: nat) returns (key: Option<nat>, protocol: Option<nat>)
    requires n < buf.Length && Terminated(buf[..], 0)
    modifies buf
    ensures key == Fields(old(buf[..])).0
    ensures key.Some? ==> (key, protocol, buf[..]) == Fields(old(buf[..]))
    ensures old(buf[n]) == NUL ==>
              forall lines, tail, i: nat, j: nat, value, name ::
                Request(old(buf[..n]), lines, tail, i, j, value, name) ==>
                  Reads(buf[..], key, value) && Reads(buf[..], protocol, name)
  {
    EveryRequestReads(buf[..], n);
    key, protocol := LookUpBoth(buf);
  }

  method LookUpBoth(buf: array<char>) returns (key: Option<nat>, protocol: Option<nat>)
    requires Terminated(buf[..], 0)
    modifies buf
    ensures key == Fields(old(buf[..])).0
    ensures key.Some? ==> (key, protocol, buf[..]) == Fields(old(buf[..]))
  {
    ghost var s := buf[..];
    var parser := new StrParser();
    var _, found := parser.Parsing(buf, LINES);
    TokensReadable(s);
    assert parser.head != null ==> parser.Starts() == StartsOf(found);
    key := parser.KeyValue(Some(KEY), VALUE);
    if key == None { return None, None; }
    protocol := parser.KeyValue(Some(PROTOCOL), VALUE);
  }
}
