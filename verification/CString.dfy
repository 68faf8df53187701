/** C strings in a character buffer, and the two library routines the parser calls:
    strtok_s with a caller-held context, and strstr (sections 7.24.5.8 and 7.24.5.7 of
    ISO/IEC 9899:2011; the three-argument strtok_s leaves the context at the terminating
    NUL after the last token, never null). The scanning functions are total; the methods
    demand what the routines demand, a terminated string. */
module CString {
  import opened Wrappers

  const NUL := '\0'

  /** Position of the NUL that ends the C string at `i`; the end of the buffer if there is
      none. */
  function End(s: seq<char>, i: nat): (e: nat)
    ensures i <= e && (i <= |s| ==> e <= |s|)
    decreases |s| - i
  {
    if i < |s| && s[i] != NUL then End(s, i + 1) else i
  }

  predicate Terminated(s: seq<char>, i: nat) {
    i < |s| && End(s, i) < |s|
  }

  /** The C string at `i`. */
  function Text(s: seq<char>, i: nat): seq<char> {
    if i <= |s| then s[i..End(s, i)] else []
  }

  lemma {:induction false} NoNulBefore(s: seq<char>, i: nat)
    ensures forall j :: i <= j < End(s, i) && j < |s| ==> s[j] != NUL
    ensures End(s, i) < |s| ==> s[End(s, i)] == NUL
    decreases |s| - i
  {
    if i < |s| && s[i] != NUL { NoNulBefore(s, i + 1); }
  }

  lemma {:induction false} EndIs(s: seq<char>, i: nat, e: nat)
    requires i <= e < |s| && s[e] == NUL && forall j :: i <= j < e ==> s[j] != NUL
    ensures Terminated(s, i) && End(s, i) == e
    decreases e - i
  {
    if i < e { EndIs(s, i + 1, e); }
  }

  /** The C string at `a` ends where the one at `i` before it does. */
  lemma {:induction false} EndFrom(s: seq<char>, i: nat, a: nat)
    requires Terminated(s, i) && i <= a <= End(s, i)
    ensures Terminated(s, a) && End(s, a) == End(s, i)
    decreases a - i
  {
    if i < a { EndFrom(s, i + 1, a); }
  }

  /** First position at or after `i` that is not a delimiter. */
  function SkipDelims(s: seq<char>, i: nat, d: string): (a: nat)
    ensures i <= a
    decreases |s| - i
  {
    if i < |s| && s[i] != NUL && s[i] in d then SkipDelims(s, i + 1, d) else i
  }

  /** First delimiter, or the terminating NUL, at or after `i`. */
  function RunEnd(s: seq<char>, i: nat, d: string): (b: nat)
    ensures i <= b
    decreases |s| - i
  {
    if i < |s| && s[i] != NUL && s[i] !in d then RunEnd(s, i + 1, d) else i
  }

  lemma {:induction false} SkipDelimsIs(s: seq<char>, i: nat, d: string)
    requires Terminated(s, i)
    ensures var a := SkipDelims(s, i, d);
            && a <= End(s, i) && Terminated(s, a) && End(s, a) == End(s, i)
            && (s[a] == NUL || s[a] !in d)
            && forall j :: i <= j < a ==> s[j] != NUL && s[j] in d
    decreases |s| - i
  {
    if s[i] != NUL && s[i] in d { SkipDelimsIs(s, i + 1, d); }
  }

  lemma {:induction false} RunEndIs(s: seq<char>, i: nat, d: string)
    requires Terminated(s, i)
    ensures var b := RunEnd(s, i, d);
            && b <= End(s, i) && Terminated(s, b) && End(s, b) == End(s, i)
            && (s[b] == NUL || s[b] in d)
            && forall j :: i <= j < b ==> s[j] != NUL && s[j] !in d
    decreases |s| - i
  {
    if s[i] != NUL && s[i] !in d { RunEndIs(s, i + 1, d); }
  }

  /** Where the scan goes on after a token that ended at `b`. */
  function Resume(s: seq<char>, b: nat): nat {
    if b < |s| && s[b] != NUL then b + 1 else b
  }

  function CutAt(s: seq<char>, b: nat): seq<char> {
    if b < |s| then s[b := NUL] else s
  }

  method StrTok(buf: array<char>, from: nat, d: string) returns (token: Option<nat>, context: nat)
    requires Terminated(buf[..], from)
    modifies buf
    ensures var s := old(buf[..]);
            var a := SkipDelims(s, from, d);
            var b := RunEnd(s, a, d);
            && a < |s| && b < |s|
            && token == (if s[a] == NUL then None else Some(a))
            && context == Resume(s, b)
            && buf[..] == CutAt(s, b)
  {
    ghost var s := buf[..];
    var i := from;
    while buf[i] != NUL && buf[i] in d
      invariant from <= i < buf.Length && buf[..] == s && Terminated(s, i)
      invariant SkipDelims(s, i, d) == SkipDelims(s, from, d)
      decreases buf.Length - i
    {
      i := i + 1;
    }
    var start := i;
    while buf[i] != NUL
      invariant start <= i < buf.Length && buf[..] == s && Terminated(s, i)
      invariant RunEnd(s, i, d) == RunEnd(s, start, d)
      invariant i == start || s[start] != NUL
      decreases buf.Length - i
    {
      if buf[i] in d {
        buf[i] := NUL;
        assert buf[..] == CutAt(s, i);
        return Some(start), i + 1;
      }
      i := i + 1;
    }
    assert CutAt(s, i) == s;
    token := if start == i then None else Some(start);
    context := i;
  }

  predicate Matches(s: seq<char>, p: nat, key: string) {
    p + |key| <= |s| && s[p..p + |key|] == key
  }

  lemma MatchChars(s: seq<char>, p: nat, key: string)
    ensures Matches(s, p, key) <==> p + |key| <= |s| && forall j :: p <= j < p + |key| ==> s[j] == key[j - p]
  {
    if p + |key| <= |s| {
      assert forall j :: p <= j < p + |key| ==> s[p..p + |key|][j - p] == s[j];
      if forall j :: p <= j < p + |key| ==> s[j] == key[j - p] {
        assert s[p..p + |key|] == key;
      }
    }
  }

  /** First occurrence of `key` in the C string at `i`. */
  function FirstMatch(s: seq<char>, i: nat, key: string): (r: Option<nat>)
    decreases |s| - i
  {
    if Matches(s, i, key) then Some(i)
    else if i < |s| && s[i] != NUL then FirstMatch(s, i + 1, key)
    else None
  }

  method MatchesAt(buf: array<char>, p: nat, key: string) returns (r: bool)
    requires Terminated(buf[..], p) && NUL !in key
    ensures r == Matches(buf[..], p, key)
  {
    ghost var e := End(buf[..], p);
    NoNulBefore(buf[..], p);
    var k := 0;
    while k < |key| && buf[p + k] == key[k]
      invariant 0 <= k <= |key| && p + k <= e
      invariant buf[..][p..p + k] == key[..k]
    {
      assert buf[..][p + k] == key[k] && key[k] in key;
      k := k + 1;
    }
    r := k == |key|;
    MatchChars(buf[..], p, key);
    assert k < |key| ==> buf[..][p + k] != key[k];
  }

  method StrStr(buf: array<char>, from: nat, key: string) returns (r: Option<nat>)
    requires Terminated(buf[..], from) && NUL !in key
    ensures r == FirstMatch(buf[..], from, key)
  {
    var p := from;
    while true
      invariant from <= p < buf.Length && Terminated(buf[..], p)
      invariant FirstMatch(buf[..], p, key) == FirstMatch(buf[..], from, key)
      decreases buf.Length - p
    {
      var here := MatchesAt(buf, p, key);
      if here { return Some(p); }
      if buf[p] == NUL { return None; }
      p := p + 1;
    }
  }

  ghost predicate Occurs(key: string, text: string) {
    exists q: nat :: Matches(text, q, key)
  }

  /** A NUL-free key that matches inside a C string lies wholly inside it. */
  lemma MatchInside(s: seq<char>, i: nat, p: nat, key: string)
    requires Terminated(s, i) && NUL !in key && i <= p <= End(s, i) && Matches(s, p, key)
    ensures p + |key| <= End(s, i)
  {
    NoNulBefore(s, i);
    MatchChars(s, p, key);
  }

  lemma MatchShift(s: seq<char>, i: nat, q: nat, key: string)
    requires Terminated(s, i)
    ensures Matches(Text(s, i), q, key) <==> i + q + |key| <= End(s, i) && Matches(s, i + q, key)
  {
    var t, e := Text(s, i), End(s, i);
    MatchChars(t, q, key);
    MatchChars(s, i + q, key);
    assert forall j :: 0 <= j < |t| ==> t[j] == s[i + j];
    assert forall j :: i <= j < e ==> s[j] == t[j - i];
  }

  lemma {:induction false} FirstMatchIs(s: seq<char>, i: nat, key: string)
    requires Terminated(s, i) && NUL !in key
    ensures var r, e := FirstMatch(s, i, key), End(s, i);
            && (r.None? ==> forall p :: i <= p <= e ==> !Matches(s, p, key))
            && (r.Some? ==> i <= r.value && r.value + |key| <= e && Matches(s, r.value, key)
                            && forall p :: i <= p < r.value ==> !Matches(s, p, key))
    decreases |s| - i
  {
    if Matches(s, i, key) {
      MatchInside(s, i, i, key);
    } else if s[i] != NUL {
      FirstMatchIs(s, i + 1, key);
    }
  }

  /** strstr finds an occurrence exactly when the text has one, and the first. */
  lemma {:induction false} FirstMatchIsFirst(s: seq<char>, i: nat, key: string)
    requires Terminated(s, i) && NUL !in key
    ensures FirstMatch(s, i, key).Some? <==> Occurs(key, Text(s, i))
    ensures FirstMatch(s, i, key).Some? ==>
              var p := FirstMatch(s, i, key).value;
              && i <= p && p + |key| <= End(s, i) && Matches(s, p, key)
              && forall q :: i <= q < p ==> !Matches(s, q, key)
  {
    FirstMatchIs(s, i, key);
    var r := FirstMatch(s, i, key);
    if r.Some? {
      MatchShift(s, i, r.value - i, key);
    }
    if q: nat :| Matches(Text(s, i), q, key) {
      MatchShift(s, i, q, key);
    }
  }
}
