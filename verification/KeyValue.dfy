/** The key/value round trip: pairs written out, parsed and looked up again. */
module KeyValue {
  import opened Wrappers
  import opened CString
  import opened Tokens
  import opened StrParser
  import opened WordLayout

  /** One pair as written: the delimiters in front of it, the key, the separator, the value. */
  datatype Pair = Pair(gap: string, key: string, eq: char, value: string)

  function Body(p: Pair): string { p.key + [p.eq] + p.value }

  function Render(pairs: seq<Pair>, tail: string): string {
    if pairs == [] then tail else pairs[0].gap + Body(pairs[0]) + Render(pairs[1..], tail)
  }

  ghost predicate Writable(p: Pair, d: string, sep: string) {
    && Only(p.gap, d)
    && p.key != [] && Free(p.key, d) && Free(p.key, sep)
    && p.eq in sep && p.eq !in d && p.eq != NUL
    && Free(p.value, d)
  }

  /** Delimiters between the pairs. */
  ghost predicate Spaced(pairs: seq<Pair>, tail: string, d: string, sep: string) {
    && Only(tail, d)
    && (forall i :: 0 <= i < |pairs| ==> Writable(pairs[i], d, sep))
    && (forall i :: 0 < i < |pairs| ==> pairs[i].gap != [])
  }

  /** No key inside an earlier pair's text. */
  ghost predicate Unmixed(pairs: seq<Pair>) {
    forall i, j :: 0 <= j < i < |pairs| ==> !Occurs(pairs[i].key, Body(pairs[j]))
  }

  ghost predicate WellWritten(pairs: seq<Pair>, tail: string, d: string, sep: string) {
    Spaced(pairs, tail, d, sep) && Unmixed(pairs)
  }

  // ---- Pairs as words ----

  function WordsOf(pairs: seq<Pair>): (words: seq<Word>)
    ensures |words| == |pairs| && forall i :: 0 <= i < |pairs| ==> words[i] == Word(pairs[i].gap, Body(pairs[i]))
  {
    seq(|pairs|, i requires 0 <= i < |pairs| => Word(pairs[i].gap, Body(pairs[i])))
  }

  lemma {:induction false} RenderIsText(pairs: seq<Pair>, tail: string)
    ensures Render(pairs, tail) == TextOf(WordsOf(pairs), tail)
  {
    if pairs != [] {
      assert WordsOf(pairs)[1..] == WordsOf(pairs[1..]);
      RenderIsText(pairs[1..], tail);
    }
  }

  lemma PairIsWord(p: Pair, d: string, sep: string)
    requires Writable(p, d, sep)
    ensures IsWord(Word(p.gap, Body(p)), d)
  {
    assert Shown(0);
  }

  lemma SpacedIsApart(pairs: seq<Pair>, tail: string, d: string, sep: string)
    requires Spaced(pairs, tail, d, sep)
    ensures Apart(WordsOf(pairs), tail, d)
  {
    var words := WordsOf(pairs);
    forall i | 0 <= i < |words| ensures IsWord(words[i], d) && (i > 0 ==> words[i].gap != []) {
      PairIsWord(pairs[i], d, sep);
    }
  }

  /** The tokens of pairs as written are the pairs, where they were laid out. */
  lemma SpansOfRender(s: seq<char>, i: nat, pairs: seq<Pair>, tail: string, d: string, sep: string)
    requires Terminated(s, i) && Text(s, i) == Render(pairs, tail) && Spaced(pairs, tail, d, sep)
    ensures Spans(s, i, d) == Layout(WordsOf(pairs), i)
    ensures forall k :: 0 <= k < |pairs| ==>
              var t := Layout(WordsOf(pairs), i)[k];
              t.start <= t.stop == t.start + |Body(pairs[k])| <= |s| && s[t.start..t.stop] == Body(pairs[k])
  {
    RenderIsText(pairs, tail);
    SpacedIsApart(pairs, tail, d, sep);
    SpansOfWords(s, i, WordsOf(pairs), tail, d);
  }

  lemma Joined(c: seq<char>, a: nat, x: string, y: char, z: string)
    requires Piece(c, a, x) && a + |x| < |c| && c[a + |x|] == y && Piece(c, a + |x| + 1, z)
    ensures Piece(c, a, x + [y] + z)
  {
    assert Shown(0);
    var t := x + [y] + z;
    forall k | 0 <= k < |t| ensures c[a + k] == t[k] {
      if k > |x| { assert t[k] == z[k - |x| - 1] == c[a + |x| + 1 + (k - |x| - 1)]; }
    }
  }

  lemma Parted(c: seq<char>, a: nat, x: string, y: char, z: string)
    requires Piece(c, a, x + [y] + z)
    ensures Piece(c, a, x) && c[a + |x|] == y && Piece(c, a + |x| + 1, z)
  {
    assert Shown(0);
    var t := x + [y] + z;
    assert t[|x|] == c[a + |x|];
    forall k | 0 <= k < |z| ensures c[a + |x| + 1 + k] == z[k] { assert t[|x| + 1 + k] == c[a + (|x| + 1 + k)]; }
    forall k | 0 <= k < |x| ensures c[a + k] == x[k] { assert t[k] == c[a + k]; }
  }

  // ---- What lookups find and leave ----

  function StartsOf(ts: seq<Span>): (starts: seq<nat>)
    ensures |starts| == |ts| && forall i :: 0 <= i < |ts| ==> starts[i] == ts[i].start
  {
    seq(|ts|, i requires 0 <= i < |ts| => ts[i].start)
  }

  /** The place of one pair in the buffer: its key, then the separator or, once looked up, a
      NUL, then its value and the NUL of the first cut. */
  ghost predicate Stands(c: seq<char>, a: nat, p: Pair, done: bool) {
    && a + |Body(p)| < |c|
    && Piece(c, a, p.key)
    && c[a + |p.key|] == (if done then NUL else p.eq)
    && Piece(c, a + |p.key| + 1, p.value)
    && c[a + |Body(p)|] == NUL
  }

  ghost predicate Shows(c: seq<char>, starts: seq<nat>, pairs: seq<Pair>, done: set<nat>) {
    && |starts| == |pairs|
    && (forall i :: 0 <= i < |pairs| ==> Stands(c, starts[i], pairs[i], i in done))
    && (forall i, j :: 0 <= i < j < |pairs| ==> starts[i] + |Body(pairs[i])| < starts[j])
  }

  /** A piece without a NUL, followed by one, reads as that piece. */
  lemma PieceReads(c: seq<char>, a: nat, t: string)
    requires Piece(c, a, t) && a + |t| < |c| && NUL !in t && c[a + |t|] == NUL
    ensures Terminated(c, a) && Text(c, a) == t
  {
    forall j | a <= j < a + |t| ensures c[j] != NUL { PieceAt(c, a, t, j - a); }
    EndIs(c, a, a + |t|);
    PieceIsSlice(c, a, t);
  }

  lemma NoNul(p: Pair, d: string, sep: string)
    requires Writable(p, d, sep)
    ensures NUL !in p.key && NUL !in p.value && p.eq != NUL && p.key != [] && p.key[0] !in sep
  {
    assert Shown(0);
  }

  /** A key and a value with a character between them, in the buffer. */
  lemma HalvesRead(c: seq<char>, a: nat, x: string, y: char, z: string)
    requires a + |x| + 1 + |z| < |c| && c[a + |x| + 1 + |z|] == NUL && NUL !in x && NUL !in z
    requires Piece(c, a, x) && c[a + |x|] == y && Piece(c, a + |x| + 1, z)
    ensures Terminated(c, a) && Text(c, a) == if y == NUL then x else x + [y] + z
    ensures Terminated(c, a + |x| + 1) && Text(c, a + |x| + 1) == z
  {
    PieceReads(c, a + |x| + 1, z);
    if y == NUL {
      PieceReads(c, a, x);
    } else {
      Joined(c, a, x, y, z);
      PieceReads(c, a, x + [y] + z);
    }
  }

  lemma StandsReads(c: seq<char>, a: nat, p: Pair, done: bool, d: string, sep: string)
    requires Stands(c, a, p, done) && Writable(p, d, sep)
    ensures Terminated(c, a) && Text(c, a) == if done then p.key else Body(p)
    ensures Terminated(c, a + |p.key| + 1) && Text(c, a + |p.key| + 1) == p.value
  {
    NoNul(p, d, sep);
    assert |Body(p)| == |p.key| + 1 + |p.value|;
    HalvesRead(c, a, p.key, if done then NUL else p.eq, p.value);
  }

  lemma ReadableNow(c: seq<char>, starts: seq<nat>, pairs: seq<Pair>, done: set<nat>, tail: string, d: string,
                    sep: string)
    requires Shows(c, starts, pairs, done) && WellWritten(pairs, tail, d, sep)
    ensures AllTerminated(c, starts)
  {
    forall k | 0 <= k < |starts| ensures Terminated(c, starts[k]) {
      StandsReads(c, starts[k], pairs[k], k in done, d, sep);
    }
  }

  lemma OccursInPrefix(key: string, t: string, more: string)
    ensures Occurs(key, t) ==> Occurs(key, t + more)
  {
    if q: nat :| Matches(t, q, key) {
      assert (t + more)[q..q + |key|] == t[q..q + |key|];
      assert Matches(t + more, q, key);
    }
  }

  /** A key is not found in the token of another pair, looked up or not. */
  lemma NotFoundIn(c: seq<char>, a: nat, p: Pair, done: bool, d: string, sep: string, key: string)
    requires Stands(c, a, p, done) && Writable(p, d, sep) && NUL !in key && !Occurs(key, Body(p))
    ensures FirstMatch(c, a, key) == None
  {
    StandsReads(c, a, p, done, d, sep);
    NotInKey(p, key);
    FirstMatchIsFirst(c, a, key);
  }

  lemma NotInKey(p: Pair, key: string)
    requires !Occurs(key, Body(p))
    ensures !Occurs(key, p.key)
  {
    assert Body(p) == p.key + ([p.eq] + p.value);
    OccursInPrefix(key, p.key, [p.eq] + p.value);
  }

  lemma {:induction false} FindAt(c: seq<char>, starts: seq<nat>, key: string, i: nat)
    requires i < |starts| && FirstMatch(c, starts[i], key) == Some(starts[i])
    requires forall j :: 0 <= j < i ==> FirstMatch(c, starts[j], key) == None
    ensures Find(c, starts, key) == Some(starts[i])
  {
    if i != 0 { FindAt(c, starts[1..], key, i - 1); }
  }

  /** The lookup of a pair's key goes to that pair, whether or not it, or any other, has been
      looked up before. */
  lemma FindIs(c: seq<char>, starts: seq<nat>, pairs: seq<Pair>, done: set<nat>,
               tail: string, d: string, sep: string, i: nat)
    requires Shows(c, starts, pairs, done) && WellWritten(pairs, tail, d, sep)
    requires i < |pairs| && NUL !in pairs[i].key
    ensures Find(c, starts, pairs[i].key) == Some(starts[i])
  {
    var key := pairs[i].key;
    forall j | 0 <= j < i ensures FirstMatch(c, starts[j], key) == None {
      NotFoundIn(c, starts[j], pairs[j], j in done, d, sep, key);
    }
    assert Stands(c, starts[i], pairs[i], i in done);
    PieceIsSlice(c, starts[i], key);
    assert Matches(c, starts[i], key);
    FindAt(c, starts, key, i);
  }

  /** What the token of a pair reads: all of it, or once looked up its key. */
  function Showing(p: Pair, done: bool): string {
    if done then p.key else Body(p)
  }

  lemma {:induction false} FindBefore(c: seq<char>, starts: seq<nat>, key: string, j: nat, bound: nat)
    requires j < |starts| && FirstMatch(c, starts[j], key).Some?
    requires forall k :: 0 <= k <= j && FirstMatch(c, starts[k], key).Some? ==>
               FirstMatch(c, starts[k], key).value < bound
    ensures Find(c, starts, key).Some? && Find(c, starts, key).value < bound
  {
    if FirstMatch(c, starts[0], key).None? { FindBefore(c, starts[1..], key, j - 1, bound); }
  }

  lemma MatchIffShows(c: seq<char>, a: nat, p: Pair, done: bool, d: string, sep: string, key: string)
    requires Stands(c, a, p, done) && Writable(p, d, sep) && NUL !in key
    ensures FirstMatch(c, a, key).Some? <==> Occurs(key, Showing(p, done))
    ensures FirstMatch(c, a, key).Some? ==> FirstMatch(c, a, key).value <= a + |Body(p)|
  {
    StandsReads(c, a, p, done, d, sep);
    FirstMatchIsFirst(c, a, key);
    if FirstMatch(c, a, key).Some? {
      assert End(c, a) == a + |Text(c, a)|;
    }
  }

  /** Whatever has been looked up before, the lookup of a pair's key goes to that pair exactly when no
      earlier token still shows the key. */
  lemma FindsOwnIff(c: seq<char>, starts: seq<nat>, pairs: seq<Pair>, done: set<nat>,
                    tail: string, d: string, sep: string, i: nat)
    requires Shows(c, starts, pairs, done) && Spaced(pairs, tail, d, sep)
    requires i < |pairs| && NUL !in pairs[i].key
    ensures Find(c, starts, pairs[i].key) == Some(starts[i])
            <==> forall j :: 0 <= j < i ==> !Occurs(pairs[i].key, Showing(pairs[j], j in done))
  {
    var key := pairs[i].key;
    forall j | 0 <= j < i
      ensures FirstMatch(c, starts[j], key).Some? <==> Occurs(key, Showing(pairs[j], j in done))
      ensures FirstMatch(c, starts[j], key).Some? ==> FirstMatch(c, starts[j], key).value < starts[i]
    {
      MatchIffShows(c, starts[j], pairs[j], j in done, d, sep, key);
    }
    if j :| 0 <= j < i && FirstMatch(c, starts[j], key).Some? {
      FindBefore(c, starts, key, j, starts[i]);
    } else {
      assert Stands(c, starts[i], pairs[i], i in done);
      PieceIsSlice(c, starts[i], key);
      assert Matches(c, starts[i], key);
      FindAt(c, starts, key, i);
    }
  }

  /** From the pair's first character the separator scan runs to the end of its key. */
  lemma KeyScan(c: seq<char>, a: nat, p: Pair, done: bool, d: string, sep: string)
    requires Stands(c, a, p, done) && Writable(p, d, sep)
    ensures SkipDelims(c, a, sep) == a && RunEnd(c, a, sep) == a + |p.key|
  {
    NoNul(p, d, sep);
    FreeScan(c, a, p.key, sep);
  }

  lemma FreeScan(c: seq<char>, a: nat, key: string, sep: string)
    requires Piece(c, a, key) && Free(key, sep) && key != [] && key[0] !in sep
    requires a + |key| < |c| && (c[a + |key|] == NUL || c[a + |key|] in sep)
    ensures SkipDelims(c, a, sep) == a && RunEnd(c, a, sep) == a + |key|
  {
    PieceAt(c, a, key, 0);
    RunEndTo(c, a, sep, key);
  }

  /** Looking a key up for the first time returns its value's place and cuts there. */
  lemma LookUpFirst(c: seq<char>, starts: seq<nat>, pairs: seq<Pair>, done: set<nat>,
                    tail: string, d: string, sep: string, i: nat)
    requires Shows(c, starts, pairs, done) && WellWritten(pairs, tail, d, sep)
    requires i < |pairs| && i !in done && NUL !in pairs[i].key
    ensures var k := starts[i] + |pairs[i].key|;
            && k < |c| && LookUp(c, starts, pairs[i].key, sep) == (Some(k + 1), c[k := NUL])
  {
    FindIs(c, starts, pairs, done, tail, d, sep, i);
    assert Stands(c, starts[i], pairs[i], false) && Writable(pairs[i], d, sep);
    KeyScan(c, starts[i], pairs[i], false, d, sep);
  }

  lemma CutStands(c: seq<char>, starts: seq<nat>, pairs: seq<Pair>, done: set<nat>, i: nat)
    requires Shows(c, starts, pairs, done) && i < |pairs|
    ensures Shows(c[starts[i] + |pairs[i].key| := NUL], starts, pairs, done + {i})
  {
    var k := starts[i] + |pairs[i].key|;
    var c' := c[k := NUL];
    forall j | 0 <= j < |pairs| ensures Stands(c', starts[j], pairs[j], j in done + {i}) {
      var a, q := starts[j], pairs[j];
      assert Stands(c, a, q, j in done);
      assert j != i ==> a + |Body(q)| < k || k < a;
      PieceKept(c, k, NUL, a, q.key);
      PieceKept(c, k, NUL, a + |q.key| + 1, q.value);
    }
  }

  /** Looking it up again returns the empty string and changes nothing. */
  lemma {:induction false} LookUpAgain(c: seq<char>, starts: seq<nat>, pairs: seq<Pair>, done: set<nat>,
                                       tail: string, d: string, sep: string, i: nat)
    requires Shows(c, starts, pairs, done) && WellWritten(pairs, tail, d, sep)
    requires i < |pairs| && i in done && NUL !in pairs[i].key
    ensures var (r, c') := LookUp(c, starts, pairs[i].key, sep);
            && c' == c && r.Some? && Terminated(c, r.value) && Text(c, r.value) == ""
  {
    FindIs(c, starts, pairs, done, tail, d, sep, i);
    assert Stands(c, starts[i], pairs[i], true) && Writable(pairs[i], d, sep);
    KeyScan(c, starts[i], pairs[i], true, d, sep);
    var k := starts[i] + |pairs[i].key|;
    EndIs(c, k, k);
    assert c[k := NUL] == c;
  }

  // ---- The round trip ----

  /** KeyValue called for the keys of the chosen pairs, one after the other. */
  function LookAll(c: seq<char>, starts: seq<nat>, pairs: seq<Pair>, order: seq<nat>,
                   sep: string): (r: (seq<Option<nat>>, seq<char>))
    requires forall k :: 0 <= k < |order| ==> order[k] < |pairs|
    decreases |order|
  {
    if order == [] then ([], c)
    else
      var (r, c') := LookUp(c, starts, pairs[order[0]].key, sep);
      var (rs, c'') := LookAll(c', starts, pairs, order[1..], sep);
      ([r] + rs, c'')
  }

  /** What every lookup keeps, folded away from the proofs that only pass it on. */
  ghost predicate Keeps(c: seq<char>, starts: seq<nat>, pairs: seq<Pair>, done: set<nat>, tail: string, d: string,
                        sep: string) {
    forall u :: Shown(u) ==> Shows(c, starts, pairs, done) && WellWritten(pairs, tail, d, sep)
  }

  /** One lookup, and a series of them, folded away likewise. */
  ghost predicate LooksUp(c: seq<char>, starts: seq<nat>, key: string, sep: string, r: Option<nat>, c': seq<char>) {
    forall u :: Shown(u) ==> LookUp(c, starts, key, sep) == (r, c')
  }

  ghost predicate LookAllIs(c: seq<char>, starts: seq<nat>, pairs: seq<Pair>, order: seq<nat>, sep: string,
                            rs: seq<Option<nat>>, c': seq<char>)
    requires forall k :: 0 <= k < |order| ==> order[k] < |pairs|
  {
    forall u :: Shown(u) ==> LookAll(c, starts, pairs, order, sep) == (rs, c')
  }

  lemma LookStep(c: seq<char>, starts: seq<nat>, pairs: seq<Pair>, done: set<nat>,
                 tail: string, d: string, sep: string, i: nat)
    returns (c': seq<char>)
    requires Keeps(c, starts, pairs, done, tail, d, sep)
    requires i < |pairs| && i < |starts| && i !in done && NUL !in pairs[i].key
    ensures LooksUp(c, starts, pairs[i].key, sep, Some(starts[i] + |pairs[i].key| + 1), c')
    ensures Keeps(c', starts, pairs, done + {i}, tail, d, sep)
  {
    assert Shown(0);
    LookUpFirst(c, starts, pairs, done, tail, d, sep, i);
    CutStands(c, starts, pairs, done, i);
    c' := LookUp(c, starts, pairs[i].key, sep).1;
  }

  lemma LookOnce(c: seq<char>, starts: seq<nat>, pairs: seq<Pair>, order: seq<nat>, sep: string,
                 r: Option<nat>, c': seq<char>, rs: seq<Option<nat>>, c'': seq<char>)
    requires order != [] && forall k :: 0 <= k < |order| ==> order[k] < |pairs|
    requires LooksUp(c, starts, pairs[order[0]].key, sep, r, c')
    requires LookAllIs(c', starts, pairs, order[1..], sep, rs, c'')
    ensures LookAllIs(c, starts, pairs, order, sep, [r] + rs, c'')
  {
    assert Shown(0);
  }

  ghost predicate Distinct(order: seq<nat>) {
    forall j, k :: 0 <= j < k < |order| ==> order[j] != order[k]
  }

  lemma {:induction false} LookAllKeeps(c: seq<char>, starts: seq<nat>, pairs: seq<Pair>, done: set<nat>,
                                        tail: string, d: string, sep: string, order: seq<nat>)
    returns (rs: seq<Option<nat>>, c': seq<char>, done': set<nat>)
    requires Keeps(c, starts, pairs, done, tail, d, sep) && |starts| == |pairs|
    requires Distinct(order)
    requires forall k :: 0 <= k < |order| ==> order[k] < |pairs| && order[k] !in done && NUL !in pairs[order[k]].key
    ensures LookAllIs(c, starts, pairs, order, sep, rs, c') && |rs| == |order|
    ensures forall k :: 0 <= k < |order| ==> rs[k] == Some(starts[order[k]] + |pairs[order[k]].key| + 1)
    ensures Keeps(c', starts, pairs, done', tail, d, sep)
    decreases |order|
  {
    rs, c', done' := [], c, done;
    if order != [] {
      var i := order[0];
      var r := Some(starts[i] + |pairs[i].key| + 1);
      var c1 := LookStep(c, starts, pairs, done, tail, d, sep, i);
      assert forall k :: 0 <= k < |order| - 1 ==> order[1..][k] == order[k + 1];
      var rest;
      rest, c', done' := LookAllKeeps(c1, starts, pairs, done + {i}, tail, d, sep, order[1..]);
      LookOnce(c, starts, pairs, order, sep, r, c1, rest, c');
      rs := [r] + rest;
    }
  }

  /** Lookups in any order, each pair at most once, go to their own values and keep every pair where
      it stands. */
  lemma LookAllFinds(c: seq<char>, starts: seq<nat>, pairs: seq<Pair>, done: set<nat>,
                     tail: string, d: string, sep: string, order: seq<nat>)
    returns (done': set<nat>)
    requires Shows(c, starts, pairs, done) && WellWritten(pairs, tail, d, sep) && Distinct(order)
    requires forall k :: 0 <= k < |order| ==> order[k] < |pairs| && order[k] !in done && NUL !in pairs[order[k]].key
    ensures var (rs, c') := LookAll(c, starts, pairs, order, sep);
            && |rs| == |order| && Shows(c', starts, pairs, done')
            && forall k :: 0 <= k < |order| ==> rs[k] == Some(starts[order[k]] + |pairs[order[k]].key| + 1)
  {
    var rs, c';
    rs, c', done' := LookAllKeeps(c, starts, pairs, done, tail, d, sep, order);
    LookAllKnown(c, starts, pairs, order, sep, rs, c');
    KeepsShows(c', starts, pairs, done', tail, d, sep);
  }

  lemma KeepsShows(c: seq<char>, starts: seq<nat>, pairs: seq<Pair>, done: set<nat>,
                   tail: string, d: string, sep: string)
    requires Keeps(c, starts, pairs, done, tail, d, sep)
    ensures Shows(c, starts, pairs, done)
  {
    assert Shown(0);
  }

  /** Pairs written with delimiters between them, cut by Parsing on a fresh parser and then
      looked up in any order, each at most once: every lookup returns the place of exactly
      that pair's value, and the text there is still the value after all the lookups. */
  lemma {:induction false} RoundTrip(s: seq<char>, pairs: seq<Pair>, tail: string, d: string, sep: string,
                                     order: seq<nat>)
    requires Terminated(s, 0) && Text(s, 0) == Render(pairs, tail) && WellWritten(pairs, tail, d, sep)
    requires Distinct(order) && forall k :: 0 <= k < |order| ==> order[k] < |pairs|
    ensures forall i :: 0 <= i < |pairs| ==> NUL !in pairs[i].key
    ensures var starts := StartsOf(Spans(s, 0, d));
            && |starts| == |pairs|
            && AllTerminated(Cut(s, Spans(s, 0, d)), starts)
            && var (rs, c) := LookAll(Cut(s, Spans(s, 0, d)), starts, pairs, order, sep);
               |rs| == |order| &&
               forall k :: 0 <= k < |order| ==>
                 rs[k].Some? && Terminated(c, rs[k].value) && Text(c, rs[k].value) == pairs[order[k]].value
  {
    var starts := StartsOf(Spans(s, 0, d));
    var c := Cut(s, Spans(s, 0, d));
    CutShows(s, pairs, tail, d, sep);
    ReadableNow(c, starts, pairs, {}, tail, d, sep);
    forall i | 0 <= i < |pairs| ensures NUL !in pairs[i].key { NoNul(pairs[i], d, sep); }
    var rs, c', done := LookAllKeeps(c, starts, pairs, {}, tail, d, sep, order);
    ValuesRead(c', starts, pairs, done, tail, d, sep, order, rs);
    LookAllKnown(c, starts, pairs, order, sep, rs, c');
  }

  lemma LookAllKnown(c: seq<char>, starts: seq<nat>, pairs: seq<Pair>, order: seq<nat>, sep: string,
                     rs: seq<Option<nat>>, c': seq<char>)
    requires forall k :: 0 <= k < |order| ==> order[k] < |pairs|
    requires LookAllIs(c, starts, pairs, order, sep, rs, c')
    ensures LookAll(c, starts, pairs, order, sep) == (rs, c')
  {
    assert Shown(0);
  }

  lemma KeepsStands(c: seq<char>, starts: seq<nat>, pairs: seq<Pair>, done: set<nat>, tail: string, d: string,
                    sep: string, i: nat)
    requires Keeps(c, starts, pairs, done, tail, d, sep) && i < |pairs| && |starts| == |pairs|
    ensures Stands(c, starts[i], pairs[i], i in done) && Writable(pairs[i], d, sep)
  {
    assert Shown(0);
  }

  lemma ValueReads(c: seq<char>, starts: seq<nat>, pairs: seq<Pair>, done: set<nat>, tail: string, d: string,
                   sep: string, i: nat)
    requires Keeps(c, starts, pairs, done, tail, d, sep) && i < |pairs| && |starts| == |pairs|
    ensures var v := starts[i] + |pairs[i].key| + 1;
            Terminated(c, v) && Text(c, v) == pairs[i].value
  {
    KeepsStands(c, starts, pairs, done, tail, d, sep, i);
    StandsReads(c, starts[i], pairs[i], i in done, d, sep);
  }

  lemma ValuesRead(c: seq<char>, starts: seq<nat>, pairs: seq<Pair>, done: set<nat>, tail: string, d: string,
                   sep: string,
                   order: seq<nat>, rs: seq<Option<nat>>)
    requires Keeps(c, starts, pairs, done, tail, d, sep) && |starts| == |pairs| && |rs| == |order|
    requires forall k :: 0 <= k < |order| ==>
               order[k] < |pairs| && rs[k] == Some(starts[order[k]] + |pairs[order[k]].key| + 1)
    ensures forall k :: 0 <= k < |order| ==>
              rs[k].Some? && Terminated(c, rs[k].value) && Text(c, rs[k].value) == pairs[order[k]].value
  {
    forall k | 0 <= k < |order|
      ensures rs[k].Some? && Terminated(c, rs[k].value) && Text(c, rs[k].value) == pairs[order[k]].value
    {
      ValueReads(c, starts, pairs, done, tail, d, sep, order[k]);
    }
  }

  /** After Parsing each pair stands where it was written, followed by a NUL. */
  lemma CutShows(s: seq<char>, pairs: seq<Pair>, tail: string, d: string, sep: string)
    requires Terminated(s, 0) && Text(s, 0) == Render(pairs, tail) && Spaced(pairs, tail, d, sep)
    ensures Shows(Cut(s, Spans(s, 0, d)), StartsOf(Spans(s, 0, d)), pairs, {})
  {
    var ts := Spans(s, 0, d);
    SpansOfRender(s, 0, pairs, tail, d, sep);
    SpansInOrder(s, 0, d);
    forall k | 0 <= k < |pairs|
      ensures ts[k].stop == ts[k].start + |Body(pairs[k])| && Stands(Cut(s, ts), ts[k].start, pairs[k], false)
    {
      OneStands(s, d, pairs[k], k);
    }
  }

  lemma OneStands(s: seq<char>, d: string, p: Pair, k: nat)
    requires Terminated(s, 0) && k < |Spans(s, 0, d)|
    requires var t := Spans(s, 0, d)[k];
             t.start <= t.stop == t.start + |Body(p)| <= |s| && s[t.start..t.stop] == Body(p)
    ensures Stands(Cut(s, Spans(s, 0, d)), Spans(s, 0, d)[k].start, p, false)
  {
    var ts := Spans(s, 0, d);
    var c := Cut(s, ts);
    TokenReads(s, 0, d, k);
    PieceIsSlice(s, ts[k].start, Body(p));
    SameSlice(s, c, ts[k].start, Body(p));
    BodyStands(c, ts[k].start, p);
  }

  /** What reads like a piece of the old buffer is that piece in the new one. */
  lemma SameSlice(s: seq<char>, c: seq<char>, a: nat, t: string)
    requires Piece(s, a, t) && Terminated(c, a) && Text(c, a) == s[a..a + |t|]
    ensures Piece(c, a, t)
  {
    EndOfText(c, a, |t|);
    PieceIsSlice(s, a, t);
    PieceIsSlice(c, a, t);
  }

  lemma BodyStands(c: seq<char>, a: nat, p: Pair)
    requires Piece(c, a, Body(p)) && a + |Body(p)| < |c| && c[a + |Body(p)|] == NUL
    ensures Stands(c, a, p, false)
  {
    Parted(c, a, p.key, p.eq, p.value);
  }

  lemma EndOfText(c: seq<char>, a: nat, n: nat)
    requires Terminated(c, a) && |Text(c, a)| == n
    ensures a + n < |c| && End(c, a) == a + n && c[a..a + n] == Text(c, a)
  {
  }

  // ---- On the parser object ----

  lemma LookUpNext(c: seq<char>, starts: seq<nat>, pairs: seq<Pair>, order: seq<nat>, sep: string, k: nat)
    requires k < |order| && forall m :: 0 <= m < |order| ==> order[m] < |pairs|
    ensures var now := LookUp(c, starts, pairs[order[k]].key, sep);
            var later := LookAll(now.1, starts, pairs, order[k + 1..], sep);
            LookAll(c, starts, pairs, order[k..], sep) == ([now.0] + later.0, later.1)
  {
    assert order[k..][0] == order[k] && order[k..][1..] == order[k + 1..];
  }

  /** What is left to look up, seen from the buffer as it is, completes what has been found. */
  ghost predicate Underway(s: seq<char>, pairs: seq<Pair>, d: string, sep: string, order: seq<nat>,
                           c: seq<char>, rs: seq<Option<nat>>)
    requires |rs| <= |order| && forall k :: 0 <= k < |order| ==> order[k] < |pairs|
  {
    forall u :: Shown(u) ==>
      var ts := Spans(s, 0, d);
      var rest := LookAll(c, StartsOf(ts), pairs, order[|rs|..], sep);
      LookAll(Cut(s, ts), StartsOf(ts), pairs, order, sep) == (rs + rest.0, rest.1)
  }

  lemma UnderwayBegins(s: seq<char>, pairs: seq<Pair>, d: string, sep: string, order: seq<nat>)
    requires forall k :: 0 <= k < |order| ==> order[k] < |pairs|
    ensures Underway(s, pairs, d, sep, order, Cut(s, Spans(s, 0, d)), [])
  {
    assert order[0..] == order;
    var r := LookAll(Cut(s, Spans(s, 0, d)), StartsOf(Spans(s, 0, d)), pairs, order, sep);
    assert [] + r.0 == r.0;
  }

  lemma UnderwayNext(s: seq<char>, pairs: seq<Pair>, d: string, sep: string, order: seq<nat>,
                     c: seq<char>, rs: seq<Option<nat>>, r: Option<nat>, c': seq<char>)
    requires |rs| < |order| && forall k :: 0 <= k < |order| ==> order[k] < |pairs|
    requires Underway(s, pairs, d, sep, order, c, rs)
    requires (r, c') == LookUp(c, StartsOf(Spans(s, 0, d)), pairs[order[|rs|]].key, sep)
    ensures Underway(s, pairs, d, sep, order, c', rs + [r])
  {
    assert Shown(0);
    var starts := StartsOf(Spans(s, 0, d));
    LookUpNext(c, starts, pairs, order, sep, |rs|);
    var later := LookAll(c', starts, pairs, order[|rs| + 1..], sep);
    assert rs + ([r] + later.0) == (rs + [r]) + later.0;
  }

  lemma UnderwayEnds(s: seq<char>, pairs: seq<Pair>, d: string, sep: string, order: seq<nat>,
                     c: seq<char>, rs: seq<Option<nat>>)
    requires |rs| == |order| && forall k :: 0 <= k < |order| ==> order[k] < |pairs|
    requires Underway(s, pairs, d, sep, order, c, rs)
    ensures LookAll(Cut(s, Spans(s, 0, d)), StartsOf(Spans(s, 0, d)), pairs, order, sep) == (rs, c)
  {
    assert Shown(0);
    assert order[|rs|..] == [] && rs + [] == rs;
  }

  /** The parser is one that has just cut `str`. */
  ghost predicate HasCut(parser: StrParser, str: array<char>, starts: seq<nat>)
    reads parser, parser.nodes, str
  {
    && parser.Valid() && parser.Starts() == starts && AllTerminated(str[..], starts)
    && (parser.head != null ==> parser.head.buf == str) && (parser.head == null ==> starts == [])
  }

  /** Parsing on a fresh parser. */
  method ParseOnly(str: array<char>, d: string) returns (parser: StrParser)
    requires Terminated(str[..], 0)
    modifies str
    ensures fresh(parser) && fresh(parser.nodes)
    ensures var ts := Spans(old(str[..]), 0, Effective(d));
            str[..] == Cut(old(str[..]), ts) && HasCut(parser, str, StartsOf(ts))
  {
    ghost var s := str[..];
    parser := new StrParser();
    var _, found := parser.Parsing(str, d);
    forall k | 0 <= k < |found| ensures Terminated(Cut(s, found), StartsOf(found)[k]) {
      TokenReads(s, 0, Effective(d), k);
    }
    assert parser.Starts() == StartsOf(found);
  }

  /** One KeyValue on such a parser. */
  method LookUpOnly(parser: StrParser, str: array<char>, key: string, sep: string, ghost starts: seq<nat>)
    returns (r: Option<nat>)
    requires HasCut(parser, str, starts) && NUL !in key
    modifies str
    ensures HasCut(parser, str, starts)
    ensures (r, str[..]) == LookUp(old(str[..]), starts, key, Effective(sep))
  {
    r := parser.KeyValue(Some(key), sep);
  }

  /** Parsing on a fresh parser, and KeyValue for the keys of pairs in any order: if the buffer holds
      the pairs as written, each returned place reads the value of its pair, also after the last. */
  method ReadInOrder(str: array<char>, d: string, sep: string, keys: seq<string>,
                     ghost pairs: seq<Pair>, ghost tail: string, ghost order: seq<nat>)
    returns (rs: seq<Option<nat>>)
    requires Terminated(str[..], 0) && Text(str[..], 0) == Render(pairs, tail)
    requires WellWritten(pairs, tail, Effective(d), Effective(sep)) && Distinct(order)
    requires |keys| == |order|
    requires forall k :: 0 <= k < |order| ==> order[k] < |pairs| && keys[k] == pairs[order[k]].key
    modifies str
    ensures |rs| == |order|
    ensures forall k :: 0 <= k < |order| ==>
              rs[k].Some? && Terminated(str[..], rs[k].value) && Text(str[..], rs[k].value) == pairs[order[k]].value
  {
    ghost var s := str[..];
    RoundTrip(s, pairs, tail, Effective(d), Effective(sep), order);
    var parser := ParseOnly(str, d);
    ghost var starts := StartsOf(Spans(s, 0, Effective(d)));
    UnderwayBegins(s, pairs, Effective(d), Effective(sep), order);
    rs := [];
    while |rs| < |keys|
      invariant |rs| <= |keys| && HasCut(parser, str, starts)
      invariant Underway(s, pairs, Effective(d), Effective(sep), order, str[..], rs)
    {
      ghost var c := str[..];
      var r := LookUpOnly(parser, str, keys[|rs|], sep, starts);
      UnderwayNext(s, pairs, Effective(d), Effective(sep), order, c, rs, r, str[..]);
      rs := rs + [r];
    }
    UnderwayEnds(s, pairs, Effective(d), Effective(sep), order, str[..], rs);
  }
}
