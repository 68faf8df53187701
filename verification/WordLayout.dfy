/** Words written with delimiters between them, and the tokens they are cut into again. */
module WordLayout {
  import opened Wrappers
  import opened CString
  import opened Tokens

  ghost predicate Only(t: string, d: string) {
    forall u :: Shown(u) ==> forall k :: 0 <= k < |t| ==> t[k] != NUL && t[k] in d
  }

  ghost predicate Free(t: string, d: string) {
    forall u :: Shown(u) ==> forall k :: 0 <= k < |t| ==> t[k] != NUL && t[k] !in d
  }

  /** One word as written: the delimiters in front of it, and its text. */
  datatype Word = Word(gap: string, text: string)

  function TextOf(words: seq<Word>, tail: string): string {
    if words == [] then tail else words[0].gap + words[0].text + TextOf(words[1..], tail)
  }

  ghost predicate IsWord(w: Word, d: string) {
    Only(w.gap, d) && Free(w.text, d) && w.text != [] && w.text[0] != NUL && w.text[0] !in d
  }

  /** Delimiters between the words. */
  ghost predicate Apart(words: seq<Word>, tail: string, d: string) {
    && Only(tail, d)
    && (forall i :: 0 <= i < |words| ==> IsWord(words[i], d))
    && (forall i :: 0 < i < |words| ==> words[i].gap != [])
  }

  /** Where a word ends. */
  function Behind(w: Word, i: nat): nat {
    i + |w.gap| + |w.text|
  }

  function Layout(words: seq<Word>, from: nat): (ts: seq<Span>)
    ensures |ts| == |words|
  {
    if words == [] then []
    else [Span(from + |words[0].gap|, Behind(words[0], from))] + Layout(words[1..], Behind(words[0], from))
  }

  // ---- Pieces of a buffer ----

  /** The text `t` lies in the buffer at `at`. */
  ghost predicate Piece(s: seq<char>, at: nat, t: string) {
    at + |t| <= |s| && forall u :: Shown(u) ==> forall k :: 0 <= k < |t| ==> s[at + k] == t[k]
  }

  lemma PieceAt(s: seq<char>, at: nat, t: string, k: nat)
    requires Piece(s, at, t) && k < |t|
    ensures s[at + k] == t[k]
  {
    assert Shown(0);
  }

  lemma PieceTail(s: seq<char>, at: nat, t: string)
    requires Piece(s, at, t) && t != []
    ensures s[at] == t[0] && Piece(s, at + 1, t[1..])
  {
    assert Shown(0);
    assert forall k :: 0 <= k < |t| - 1 ==> t[1..][k] == t[k + 1] == s[at + (k + 1)];
  }

  lemma PieceIsSlice(s: seq<char>, at: nat, t: string)
    requires at + |t| <= |s|
    ensures Piece(s, at, t) <==> s[at..at + |t|] == t
  {
    assert Shown(0);
    if s[at..at + |t|] == t {
      forall k | 0 <= k < |t| ensures s[at + k] == t[k] { assert s[at + k] == s[at..at + |t|][k]; }
    }
  }

  lemma PieceKept(s: seq<char>, j: nat, ch: char, at: nat, t: string)
    requires Piece(s, at, t) && j < |s| && (j < at || at + |t| <= j)
    ensures Piece(s[j := ch], at, t)
  {
    assert Shown(0);
  }

  lemma {:induction false} SkipDelimsTo(s: seq<char>, i: nat, d: string, t: string)
    requires Piece(s, i, t) && Only(t, d)
    requires i + |t| < |s| && (s[i + |t|] == NUL || s[i + |t|] !in d)
    ensures SkipDelims(s, i, d) == i + |t|
    decreases |t|
  {
    if t != [] {
      assert Shown(0);
      PieceTail(s, i, t);
      SkipDelimsTo(s, i + 1, d, t[1..]);
    }
  }

  lemma {:induction false} RunEndTo(s: seq<char>, i: nat, d: string, t: string)
    requires Piece(s, i, t) && Free(t, d)
    requires i + |t| < |s| && (s[i + |t|] == NUL || s[i + |t|] in d)
    ensures RunEnd(s, i, d) == i + |t|
    decreases |t|
  {
    if t != [] {
      assert Shown(0);
      PieceTail(s, i, t);
      RunEndTo(s, i + 1, d, t[1..]);
    }
  }

  /** Two pieces of a C string, one behind the other. */
  lemma TwoPieces(s: seq<char>, i: nat, x: string, z: string)
    requires Terminated(s, i) && Text(s, i) == x + z
    ensures var b := i + |x|;
            && b + |z| == End(s, i) == End(s, b) && Piece(s, i, x) && Terminated(s, b) && Text(s, b) == z
  {
    var t := Text(s, i);
    EndFrom(s, i, i + |x|);
    forall k | 0 <= k < |x| ensures s[i + k] == x[k] { assert t[k] == s[i + k]; }
    forall k | 0 <= k < |z| ensures s[i + |x| + k] == z[k] { assert t[|x| + k] == s[i + (|x| + k)]; }
    assert Text(s, i + |x|) == z;
  }

  lemma Pieces(s: seq<char>, i: nat, x: string, y: string, z: string)
    requires Terminated(s, i) && Text(s, i) == x + y + z
    ensures var a := i + |x|;
            var b := a + |y|;
            && b + |z| == End(s, i) && Piece(s, i, x) && Piece(s, a, y)
            && Terminated(s, b) && End(s, b) == End(s, i) && Text(s, b) == z
  {
    assert x + y + z == x + (y + z);
    TwoPieces(s, i, x, y + z);
    TwoPieces(s, i + |x|, y, z);
  }

  // ---- The tokens ----

  /** What follows a word is nothing or starts with a delimiter. */
  lemma RestStarts(words: seq<Word>, tail: string, d: string)
    requires words != [] && Apart(words, tail, d)
    ensures var rest := TextOf(words[1..], tail);
            && (rest == [] ==> words[1..] == [])
            && (rest != [] ==> rest[0] != NUL && rest[0] in d)
    ensures Apart(words[1..], tail, d)
  {
    assert Shown(0);
    if words[1..] != [] {
      assert words[1].gap != [] && IsWord(words[1], d);
      assert TextOf(words[1..], tail)[0] == words[1].gap[0];
    }
  }

  /** From `i` the buffer holds the words as written, then the tail and a NUL. */
  ghost predicate Written(s: seq<char>, i: nat, words: seq<Word>, tail: string, d: string) {
    forall u :: Shown(u) ==> Terminated(s, i) && Text(s, i) == TextOf(words, tail) && Apart(words, tail, d)
  }

  lemma WrittenParts(s: seq<char>, i: nat, words: seq<Word>, tail: string, d: string) returns (rest: string)
    requires Written(s, i, words, tail, d) && words != []
    ensures Terminated(s, i) && Text(s, i) == words[0].gap + words[0].text + rest
    ensures rest == TextOf(words[1..], tail) && (rest == [] ==> words[1..] == [])
    ensures rest != [] ==> rest[0] != NUL && rest[0] in d
    ensures IsWord(words[0], d)
  {
    assert Shown(0);
    rest := TextOf(words[1..], tail);
    RestStarts(words, tail, d);
  }

  lemma RestIsWritten(s: seq<char>, i: nat, words: seq<Word>, tail: string, d: string, b: nat)
    requires Written(s, i, words, tail, d) && words != []
    requires Terminated(s, b) && Text(s, b) == TextOf(words[1..], tail)
    ensures Written(s, b, words[1..], tail, d)
  {
    assert Shown(0);
    RestStarts(words, tail, d);
  }

  /** The front of a written text: the first gap and the first word. */
  lemma FirstWord(s: seq<char>, i: nat, words: seq<Word>, tail: string, d: string)
    requires Written(s, i, words, tail, d) && words != []
    ensures Terminated(s, i) && Behind(words[0], i) <= End(s, i) < |s|
    ensures Piece(s, i, words[0].gap) && Piece(s, i + |words[0].gap|, words[0].text)
    ensures IsWord(words[0], d)
  {
    var rest := WrittenParts(s, i, words, tail, d);
    Pieces(s, i, words[0].gap, words[0].text, rest);
  }

  /** And behind it: a delimiter and the other words, or the end. */
  lemma RestWritten(s: seq<char>, i: nat, words: seq<Word>, tail: string, d: string)
    requires Written(s, i, words, tail, d) && words != []
    ensures var b := Behind(words[0], i);
            && b < |s| && End(s, b) == End(s, i)
            && (if s[b] == NUL then words[1..] == [] else s[b] in d)
            && Written(s, b, words[1..], tail, d)
  {
    var rest := WrittenParts(s, i, words, tail, d);
    PiecesThen(s, i, words[0].gap, words[0].text, rest, d);
    RestIsWritten(s, i, words, tail, d, Behind(words[0], i));
  }

  lemma PiecesThen(s: seq<char>, i: nat, x: string, y: string, z: string, d: string)
    requires Terminated(s, i) && Text(s, i) == x + y + z
    requires z != [] ==> z[0] != NUL && z[0] in d
    ensures var b := i + |x| + |y|;
            && End(s, i) == End(s, b) && Terminated(s, b) && Text(s, b) == z
            && (if s[b] == NUL then z == [] else s[b] in d)
  {
    Pieces(s, i, x, y, z);
    TextStarts(s, i + |x| + |y|);
  }

  lemma TextStarts(s: seq<char>, b: nat)
    requires Terminated(s, b)
    ensures if s[b] == NUL then Text(s, b) == [] else Text(s, b) != [] && Text(s, b)[0] == s[b]
  {
    NoNulBefore(s, b);
  }

  /** The first token of a written text is the first word. */
  lemma FirstToken(s: seq<char>, i: nat, words: seq<Word>, tail: string, d: string)
    requires Written(s, i, words, tail, d) && words != []
    ensures var a := i + |words[0].gap|;
            && SkipDelims(s, i, d) == a && Terminated(s, a) && s[a] != NUL
            && RunEnd(s, a, d) == Behind(words[0], i)
  {
    FirstWord(s, i, words, tail, d);
    RestWritten(s, i, words, tail, d);
    TokenAt(s, i, words[0].gap, words[0].text, d);
  }

  /** Delimiters, then something free of them, then a delimiter or the end: that is a token. */
  lemma TokenAt(s: seq<char>, i: nat, gap: string, body: string, d: string)
    requires Terminated(s, i) && Only(gap, d) && Free(body, d) && body != [] && body[0] != NUL && body[0] !in d
    requires Piece(s, i, gap) && Piece(s, i + |gap|, body)
    requires i + |gap| + |body| <= End(s, i) < |s|
    requires s[i + |gap| + |body|] == NUL || s[i + |gap| + |body|] in d
    ensures var a := i + |gap|;
            SkipDelims(s, i, d) == a && Terminated(s, a) && s[a] != NUL && RunEnd(s, a, d) == a + |body|
  {
    PieceAt(s, i + |gap|, body, 0);
    SkipDelimsTo(s, i, d, gap);
    EndFrom(s, i, i + |gap|);
    RunEndTo(s, i + |gap|, d, body);
  }

  lemma NoWords(s: seq<char>, i: nat, tail: string, d: string)
    requires Written(s, i, [], tail, d)
    ensures SpansAre(s, i, d, [])
  {
    assert Shown(0);
    NoNulBefore(s, i);
    PieceIsSlice(s, i, tail);
    SkipDelimsTo(s, i, d, tail);
  }

  ghost predicate SpansAre(s: seq<char>, i: nat, d: string, ts: seq<Span>) {
    forall u :: Shown(u) ==> Spans(s, i, d) == ts
  }

  lemma SpansKnown(s: seq<char>, i: nat, d: string, ts: seq<Span>)
    requires SpansAre(s, i, d, ts)
    ensures Spans(s, i, d) == ts
  {
    assert Shown(0);
  }

  lemma FirstSpan(s: seq<char>, i: nat, words: seq<Word>, tail: string, d: string, ts: seq<Span>)
    requires Written(s, i, words, tail, d) && words != []
    requires SpansAre(s, Behind(words[0], i), d, ts)
    ensures SpansAre(s, i, d, [Span(i + |words[0].gap|, Behind(words[0], i))] + ts)
  {
    FirstWord(s, i, words, tail, d);
    RestWritten(s, i, words, tail, d);
    FirstToken(s, i, words, tail, d);
    SpanStep(s, i, d, Span(i + |words[0].gap|, Behind(words[0], i)), ts);
  }

  lemma SpanStep(s: seq<char>, i: nat, d: string, t: Span, ts: seq<Span>)
    requires t.start < t.stop < |s| && (s[t.stop] == NUL || s[t.stop] in d)
    requires SkipDelims(s, i, d) == t.start && RunEnd(s, t.start, d) == t.stop
    requires SpansAre(s, t.stop, d, ts)
    ensures SpansAre(s, i, d, [t] + ts)
  {
    SpansKnown(s, t.stop, d, ts);
    if s[t.stop] != NUL { SkipsDelim(s, t.stop, d); }
  }

  /** Starting on a delimiter is starting behind it. */
  lemma SkipsDelim(s: seq<char>, b: nat, d: string)
    requires b < |s| && s[b] != NUL && s[b] in d
    ensures Spans(s, b, d) == Spans(s, b + 1, d)
  {
  }

  lemma {:induction false} WrittenSpans(s: seq<char>, i: nat, words: seq<Word>, tail: string, d: string)
    requires Written(s, i, words, tail, d)
    ensures SpansAre(s, i, d, Layout(words, i))
    decreases |words|
  {
    if words == [] {
      NoWords(s, i, tail, d);
    } else {
      var b := Behind(words[0], i);
      RestWritten(s, i, words, tail, d);
      WrittenSpans(s, b, words[1..], tail, d);
      FirstSpan(s, i, words, tail, d, Layout(words[1..], b));
    }
  }

  lemma {:induction false} WrittenShows(s: seq<char>, i: nat, words: seq<Word>, tail: string, d: string, k: nat)
    requires Written(s, i, words, tail, d) && k < |words|
    ensures var t := Layout(words, i)[k];
            && i <= t.start && t.stop == t.start + |words[k].text| && t.stop <= End(s, i)
            && Piece(s, t.start, words[k].text)
    decreases |words|
  {
    FirstWord(s, i, words, tail, d);
    if k > 0 {
      RestWritten(s, i, words, tail, d);
      WrittenShows(s, Behind(words[0], i), words[1..], tail, d, k - 1);
    }
  }

  /** The tokens of words written with delimiters between them are the words, where they were laid
      out. */
  lemma SpansOfWords(s: seq<char>, i: nat, words: seq<Word>, tail: string, d: string)
    requires Terminated(s, i) && Text(s, i) == TextOf(words, tail) && Apart(words, tail, d)
    ensures Spans(s, i, d) == Layout(words, i)
    ensures forall k :: 0 <= k < |words| ==>
              var t := Layout(words, i)[k];
              t.start <= t.stop == t.start + |words[k].text| <= |s| && s[t.start..t.stop] == words[k].text
  {
    assert Written(s, i, words, tail, d);
    WrittenSpans(s, i, words, tail, d);
    SpansKnown(s, i, d, Layout(words, i));
    forall k | 0 <= k < |words|
      ensures var t := Layout(words, i)[k];
              t.start <= t.stop == t.start + |words[k].text| <= |s| && s[t.start..t.stop] == words[k].text
    {
      WrittenShows(s, i, words, tail, d, k);
      PieceIsSlice(s, Layout(words, i)[k].start, words[k].text);
    }
  }
}
