/** Splitting the cleaned text into tokens on single spaces, `text.split(" ")`
    (main.py:84), and joining the surviving tokens back, `" ".join(...)`
    (main.py:89). */
module Tokens {
  import opened Chars

  predicate IsNotBlank(c: char) { c != ' ' }

  /** `" ".join(ts)` */
  function Join(ts: seq<string>): (s: string)
    ensures ts == [] ==> s == []
    ensures |ts| == 1 ==> s == ts[0]
    decreases |ts|
  {
    if ts == [] then []
    else if |ts| == 1 then ts[0]
    else ts[0] + " " + Join(ts[1..])
  }

  /** `s.split(" ")`: the pieces between single spaces, empty pieces
      included. */
  function Split(s: string): (ts: seq<string>)
    ensures ts != []
    ensures forall t :: t in ts ==> ' ' !in t
    decreases |s|
  {
    var n := Span(s, IsNotBlank);
    if n == |s| then
      assert forall k :: 0 <= k < |s| ==> s[k] != ' ';
      [s]
    else
      assert forall k :: 0 <= k < n ==> s[..n][k] != ' ';
      [s[..n]] + Split(s[n + 1..])
  }

  /** There is always one piece more than there are spaces. */
  lemma {:induction false} SplitCount(s: string)
    ensures |Split(s)| == multiset(s)[' '] + 1
    decreases |s|
  {
    var n := Span(s, IsNotBlank);
    if n == |s| {
      assert forall k :: 0 <= k < |s| ==> s[k] != ' ';
      assert ' ' !in multiset(s);
    } else {
      var rest := s[n + 1..];
      SplitCount(rest);
      assert forall k :: 0 <= k < n ==> s[..n][k] != ' ';
      assert ' ' !in multiset(s[..n]);
      AroundSpace(s, n);
      assert multiset(s)[' '] == multiset(s[..n])[' '] + 1 + multiset(rest)[' '];
    }
  }

  /** A text is what comes before its space at `n`, the space, and what
      comes after. */
  lemma AroundSpace(s: string, n: nat)
    requires n < |s| && s[n] == ' '
    ensures s == s[..n] + " " + s[n + 1..]
  {
  }

  /** Joining a token in front of a non-empty list puts one space between. */
  lemma JoinCons(t: string, ts: seq<string>)
    requires ts != []
    ensures Join([t] + ts) == t + " " + Join(ts)
  {
    assert ([t] + ts)[1..] == ts;
  }

  /** Splitting and joining on the same separator round-trip: nothing is lost. */
  lemma {:induction false} JoinSplit(s: string)
    ensures Join(Split(s)) == s
    decreases |s|
  {
    var n := Span(s, IsNotBlank);
    if n < |s| {
      var rest := s[n + 1..];
      JoinSplit(rest);
      JoinCons(s[..n], Split(rest));
      AroundSpace(s, n);
    }
  }

  /** Joining a non-empty list of space-free tokens and splitting the result
      gives the list back. */
  lemma {:induction false} SplitJoin(ts: seq<string>)
    requires ts != []
    requires forall t :: t in ts ==> ' ' !in t
    ensures Split(Join(ts)) == ts
    decreases |ts|
  {
    var t := ts[0];
    assert t in ts;
    if |ts| == 1 {
      SpanIs(t, IsNotBlank, |t|);
    } else {
      var rest := ts[1..];
      assert forall u :: u in rest ==> u in ts;
      SplitJoin(rest);
      var j := Join(rest);
      var s := t + " " + j;
      JoinCons(t, rest);
      assert ts == [t] + rest;
      SpanIs(s, IsNotBlank, |t|);
      SpaceAfter(t, j);
    }
  }

  lemma SpaceAfter(t: string, j: string)
    ensures (t + " " + j)[..|t|] == t && (t + " " + j)[|t| + 1..] == j
  {
  }
}
