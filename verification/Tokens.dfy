/** What cutting a C string into tokens means: the positions, the altered buffer, and what a
    reader of the altered buffer finds. */
module Tokens {
  import opened CString

  /** A token's first position and the position just after it. */
  datatype Span = Span(start: nat, stop: nat)

  /** The tokens repeated strtok_s calls find from `i` on. */
  function Spans(s: seq<char>, i: nat, d: string): (ts: seq<Span>)
    decreases |s| - i
  {
    var a := SkipDelims(s, i, d);
    var b := RunEnd(s, a, d);
    if a == b then [] else [Span(a, b)] + Spans(s, Resume(s, b), d)
  }

  ghost predicate Stops(ts: seq<Span>, j: nat) {
    exists k :: 0 <= k < |ts| && ts[k].stop == j
  }

  /** The buffer after a NUL has been written behind each token. */
  ghost function Cut(s: seq<char>, ts: seq<Span>): (c: seq<char>)
    ensures |c| == |s|
  {
    seq(|s|, j requires 0 <= j < |s| => if Stops(ts, j) then NUL else s[j])
  }

  /** A maximal delimiter-free run of the C string at `i`. */
  ghost predicate IsRun(s: seq<char>, i: nat, d: string, t: Span) {
    && i <= t.start < t.stop <= End(s, i) <= |s|
    && (forall j :: t.start <= j < t.stop ==> s[j] !in d)
    && (t.start == i || s[t.start - 1] in d)
    && (t.stop == End(s, i) || s[t.stop] in d)
  }

  ghost predicate InOrder(ts: seq<Span>) {
    forall j, k :: 0 <= j < k < |ts| ==> ts[j].stop < ts[k].start
  }

  /** One round of the scan: no token is left exactly at the end of the text; otherwise the
      first token is not empty, and behind it the scan goes on in the same text. */
  lemma Round(s: seq<char>, i: nat, d: string)
    requires Terminated(s, i)
    ensures var a := SkipDelims(s, i, d);
            var b := RunEnd(s, a, d);
            && i <= a <= b <= End(s, i) < |s| && Terminated(s, a)
            && (a == b <==> s[a] == NUL)
            && (a == b ==> a == End(s, i))
            && (s[b] == NUL ==> b == End(s, i))
            && (s[b] == NUL || s[b] in d)
            && Terminated(s, Resume(s, b)) && End(s, Resume(s, b)) == End(s, i)
  {
    SkipDelimsIs(s, i, d);
    var a := SkipDelims(s, i, d);
    RunEndIs(s, a, d);
    NoNulBefore(s, i);
    EndFrom(s, i, Resume(s, RunEnd(s, a, d)));
  }

  /** The runs from `i` on: the first token, and the runs behind it. */
  lemma RunsFrom(s: seq<char>, i: nat, d: string, t: Span)
    requires Terminated(s, i)
    ensures var a := SkipDelims(s, i, d);
            var b := RunEnd(s, a, d);
            && (a == b ==> !IsRun(s, i, d, t))
            && (a < b ==> (IsRun(s, i, d, t) <==> t == Span(a, b) || (b < t.start && IsRun(s, Resume(s, b), d, t))))
  {
    Round(s, i, d);
    var a := SkipDelims(s, i, d);
    SkipDelimsIs(s, i, d);
    RunEndIs(s, a, d);
    NoNulBefore(s, i);
    if i <= t.start < t.stop <= End(s, i) {
      var first := s[t.start];
    }
  }

  lemma {:induction false} SpanIffRun(s: seq<char>, i: nat, d: string, t: Span)
    requires Terminated(s, i)
    ensures t in Spans(s, i, d) <==> IsRun(s, i, d, t)
    decreases |s| - i
  {
    Round(s, i, d);
    RunsFrom(s, i, d, t);
    var a := SkipDelims(s, i, d);
    var b := RunEnd(s, a, d);
    if a < b {
      SpanIffRun(s, Resume(s, b), d, t);
    }
  }

  lemma SpansBounds(s: seq<char>, i: nat, d: string)
    requires Terminated(s, i)
    ensures forall k :: 0 <= k < |Spans(s, i, d)| ==>
              i <= Spans(s, i, d)[k].start < Spans(s, i, d)[k].stop <= End(s, i)
  {
    var ts := Spans(s, i, d);
    forall k | 0 <= k < |ts| ensures i <= ts[k].start < ts[k].stop <= End(s, i) { SpanIffRun(s, i, d, ts[k]); }
  }

  lemma FirstBefore(first: Span, rest: seq<Span>)
    requires InOrder(rest) && forall k :: 0 <= k < |rest| ==> first.stop < rest[k].start
    ensures InOrder([first] + rest)
  {
    var ts := [first] + rest;
    forall j, k | 0 <= j < k < |ts| ensures ts[j].stop < ts[k].start {
      assert ts[k] == rest[k - 1];
    }
  }

  lemma {:induction false} SpansInOrder(s: seq<char>, i: nat, d: string)
    requires Terminated(s, i)
    ensures InOrder(Spans(s, i, d))
    decreases |s| - i
  {
    Round(s, i, d);
    var a := SkipDelims(s, i, d);
    var b := RunEnd(s, a, d);
    if a < b {
      var rest := Spans(s, Resume(s, b), d);
      SpansInOrder(s, Resume(s, b), d);
      forall k | 0 <= k < |rest| ensures b < rest[k].start {
        SpanIffRun(s, Resume(s, b), d, rest[k]);
      }
      FirstBefore(Span(a, b), rest);
    }
  }

  /** Tokenization is exact: the tokens are the maximal delimiter-free runs, all of them, each
      once, in order. */
  lemma {:induction false} SpansAreRuns(s: seq<char>, i: nat, d: string)
    requires Terminated(s, i)
    ensures InOrder(Spans(s, i, d))
    ensures forall t :: t in Spans(s, i, d) <==> IsRun(s, i, d, t)
  {
    SpansInOrder(s, i, d);
    forall t ensures t in Spans(s, i, d) <==> IsRun(s, i, d, t) { SpanIffRun(s, i, d, t); }
  }

  /** No later or earlier cut falls inside a token. */
  lemma CutKeepsToken(s: seq<char>, ts: seq<Span>, k: nat, j: nat)
    requires InOrder(ts) && k < |ts| && ts[k].start <= j < ts[k].stop && j < |s|
    requires forall m :: 0 <= m < |ts| ==> ts[m].start < ts[m].stop
    ensures Cut(s, ts)[j] == s[j]
  {
    assert forall m :: 0 <= m < k ==> ts[m].stop < ts[k].start;
    assert forall m :: k < m < |ts| ==> ts[k].stop < ts[m].start;
  }

  /** Read as a C string from the altered buffer, each token is its run of the original. */
  lemma {:induction false} TokenReads(s: seq<char>, i: nat, d: string, k: nat)
    requires Terminated(s, i) && k < |Spans(s, i, d)|
    ensures var ts := Spans(s, i, d);
            && Terminated(Cut(s, ts), ts[k].start) && ts[k].start < ts[k].stop < |s|
            && Text(Cut(s, ts), ts[k].start) == s[ts[k].start..ts[k].stop]
            && Cut(s, ts)[ts[k].stop] == NUL
  {
    var ts := Spans(s, i, d);
    var c, t := Cut(s, ts), ts[k];
    SpansInOrder(s, i, d);
    SpansBounds(s, i, d);
    NoNulBefore(s, i);
    assert Stops(ts, t.stop);
    forall j | t.start <= j < t.stop ensures c[j] == s[j] { CutKeepsToken(s, ts, k, j); }
    EndIs(c, t.start, t.stop);
    assert c[t.start..t.stop] == s[t.start..t.stop];
  }

  /** Only the delimiter right behind a token changes, to NUL. */
  lemma {:induction false} CutFrame(s: seq<char>, i: nat, d: string, j: nat)
    requires Terminated(s, i) && j < |s|
    ensures var ts := Spans(s, i, d);
            Cut(s, ts)[j] != s[j] ==>
              && Cut(s, ts)[j] == NUL && s[j] in d && i < j < End(s, i)
              && Stops(ts, j)
  {
    var ts := Spans(s, i, d);
    NoNulBefore(s, i);
    if k :| 0 <= k < |ts| && ts[k].stop == j {
      SpanIffRun(s, i, d, ts[k]);
    }
  }

  /** What stood right behind each token. */
  function Behind(s: seq<char>, ts: seq<Span>): (cs: seq<char>)
    requires forall k :: 0 <= k < |ts| ==> ts[k].stop < |s|
    ensures |cs| == |ts| && forall k :: 0 <= k < |ts| ==> cs[k] == s[ts[k].stop]
  {
    seq(|ts|, k requires 0 <= k < |ts| => s[ts[k].stop])
  }

  /** The cut buffer, with one character put back behind each token. */
  function Mend(c: seq<char>, ts: seq<Span>, behind: seq<char>): (s: seq<char>)
    requires |behind| == |ts| && forall k :: 0 <= k < |ts| ==> ts[k].stop < |c|
    ensures |s| == |c|
    decreases |ts|
  {
    if ts == [] then c
    else
      var last := |ts| - 1;
      Mend(c, ts[..last], behind[..last])[ts[last].stop := behind[last]]
  }

  lemma {:induction false} MendAt(c: seq<char>, ts: seq<Span>, behind: seq<char>, s: seq<char>, j: nat)
    requires |behind| == |ts| && |s| == |c| && j < |c|
    requires forall k :: 0 <= k < |ts| ==> ts[k].stop < |c| && behind[k] == s[ts[k].stop]
    ensures Mend(c, ts, behind)[j] == if Stops(ts, j) then s[j] else c[j]
    decreases |ts|
  {
    if ts != [] {
      var last := |ts| - 1;
      MendAt(c, ts[..last], behind[..last], s, j);
      if k :| 0 <= k < |ts| && ts[k].stop == j && k < last { assert ts[..last][k].stop == j; }
      if k :| 0 <= k < last && ts[..last][k].stop == j { assert ts[k].stop == j; }
      if ts[last].stop == j { assert Stops(ts, j); }
    }
  }

  /** The tokens and the one character behind each, a delimiter or for the last token the NUL, are
      enough to get the original buffer back. */
  lemma {:induction false} CutIsRecoverable(s: seq<char>, i: nat, d: string)
    requires Terminated(s, i)
    ensures var ts := Spans(s, i, d);
            && (forall k :: 0 <= k < |ts| ==> ts[k].stop < |s| && (s[ts[k].stop] in d || ts[k].stop == End(s, i)))
            && Mend(Cut(s, ts), ts, Behind(s, ts)) == s
  {
    var ts := Spans(s, i, d);
    forall k | 0 <= k < |ts| ensures ts[k].stop < |s| && (s[ts[k].stop] in d || ts[k].stop == End(s, i)) {
      SpanIffRun(s, i, d, ts[k]);
    }
    var mended := Mend(Cut(s, ts), ts, Behind(s, ts));
    forall j | 0 <= j < |s| ensures mended[j] == s[j] { MendAt(Cut(s, ts), ts, Behind(s, ts), s, j); }
  }
}
