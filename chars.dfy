/** Character classes used by the regular expressions of the email normaliser,
    and the "longest prefix of a class" measure the regular-expression stages
    are written with. Only ASCII is modelled: `\d` is 0-9, `\s` is the six
    ASCII whitespace characters and `[a-zA-Z]` is what it says. */
module Chars {

  predicate IsUpper(c: char) { 'A' <= c <= 'Z' }

  predicate IsLower(c: char) { 'a' <= c <= 'z' }

  /** `[a-zA-Z]` */
  predicate IsLetter(c: char) { IsUpper(c) || IsLower(c) }

  /** `\d` */
  predicate IsDigit(c: char) { '0' <= c <= '9' }

  /** `\s`: space, tab, line feed, vertical tab, form feed and carriage return */
  predicate IsSpace(c: char) { c == ' ' || '\t' <= c <= '\r' }

  /** `\S` */
  predicate IsNonSpace(c: char) { !IsSpace(c) }

  predicate NoUpper(s: string) { forall i :: 0 <= i < |s| ==> !IsUpper(s[i]) }

  predicate NoDigit(s: string) { forall i :: 0 <= i < |s| ==> !IsDigit(s[i]) }

  predicate NoSpace(s: string) { forall i :: 0 <= i < |s| ==> !IsSpace(s[i]) }

  predicate AllSpace(s: string) { forall i :: 0 <= i < |s| ==> IsSpace(s[i]) }

  predicate LettersOnly(s: string) { forall i :: 0 <= i < |s| ==> IsLetter(s[i]) }

  /** Length of the longest prefix of `s` all of whose characters satisfy `p`:
      what a greedy `[...]+` or `[...]*` consumes. */
  function Span(s: string, p: char -> bool): (n: nat)
    ensures n <= |s|
    ensures forall k :: 0 <= k < n ==> p(s[k])
    ensures n < |s| ==> !p(s[n])
    decreases |s|
  {
    if s != [] && p(s[0]) then 1 + Span(s[1..], p) else 0
  }

  /** The span is determined by where the class first fails. */
  lemma SpanIs(s: string, p: char -> bool, n: nat)
    requires n <= |s|
    requires forall k :: 0 <= k < n ==> p(s[k])
    requires n < |s| ==> !p(s[n])
    ensures Span(s, p) == n
  {
  }

  /** A span that stops inside `a`, or at a boundary where `b` does not
      continue it, is not affected by what follows `a`. */
  lemma {:induction false} SpanOfConcat(a: string, b: string, p: char -> bool)
    requires Span(a, p) < |a| || b == [] || !p(b[0])
    ensures Span(a + b, p) == Span(a, p)
    decreases |a|
  {
    if a != [] && p(a[0]) {
      assert (a + b)[1..] == a[1..] + b;
      SpanOfConcat(a[1..], b, p);
    }
  }

  /** Concatenation regroups freely. */
  lemma ConcatAssoc(a: string, b: string, c: string)
    ensures a + (b + c) == (a + b) + c
  {
  }

  /** Dropping a prefix of the first part of a concatenation. */
  lemma DropOfConcat(a: string, b: string, k: nat)
    requires k <= |a|
    ensures (a + b)[k..] == a[k..] + b
  {
  }

  /** Cutting at `k` and then again at `n`, for `k <= n`. */
  lemma SliceOfSlice(s: string, k: nat, n: nat)
    requires k <= n <= |s|
    ensures s[k..][n - k..] == s[n..]
    ensures s[..n] == s[..k] + s[k..][..n - k]
  {
  }

  /** A text is its first `k` characters followed by the rest. */
  lemma TakeDrop(s: string, k: nat)
    requires k <= |s|
    ensures s == s[..k] + s[k..]
  {
  }
}
