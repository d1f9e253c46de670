/** The tag stage, `re.sub(r'<[^>]+>', ' ', text)` (main.py:77): every
    angle-bracketed span with at least one character between the brackets and
    no `>` among those characters is replaced by a single space. */
module Tags {
  import opened Chars

  predicate IsNotClose(c: char) { c != '>' }

  /** `t` is matched in full by `<[^>]+>`. */
  predicate IsTag(t: string) {
    |t| >= 3 && t[0] == '<' && t[|t| - 1] == '>' && '>' !in t[1..|t| - 1]
  }

  /** No substring of `s` is a tag. */
  predicate NoTag(s: string) {
    forall i, j :: 0 <= i <= j <= |s| ==> !IsTag(s[i..j])
  }

  /** Every `<` of `s` has a `>` somewhere after it in `s`: any tag the scan
      starts inside `s` also ends inside `s`. */
  predicate Closed(s: string) {
    forall i :: 0 <= i < |s| && s[i] == '<' ==> '>' in s[i + 1..]
  }

  /** Length of the tag at the start of `s`, or 0 when none starts there.
      `[^>]+` is greedy and cannot pass a `>`, so a tag ends at the first `>`
      after its `<`, and at most one match can start there. */
  function TagLength(s: string): (n: nat)
    ensures n <= |s|
    ensures n == 0 || n >= 3
  {
    if |s| > 0 && s[0] == '<' then
      var j := 1 + Span(s[1..], IsNotClose);
      if 1 < j < |s| then j + 1 else 0
    else 0
  }

  /** What `TagLength` finds is a tag, and it is the only prefix of `s` that
      is one. */
  lemma TagLengthMeaning(s: string)
    ensures TagLength(s) > 0 ==> IsTag(s[..TagLength(s)])
    ensures forall m :: 0 <= m <= |s| && IsTag(s[..m]) ==> m == TagLength(s)
  {
    if |s| > 0 && s[0] == '<' {
      var j := 1 + Span(s[1..], IsNotClose);
      assert forall k :: 1 <= k < j ==> s[k] != '>' by {
        forall k | 1 <= k < j ensures s[k] != '>' {
          assert IsNotClose(s[1..][k - 1]);
        }
      }
      forall m | 0 <= m <= |s| && IsTag(s[..m]) ensures m == TagLength(s) {
        assert forall k :: 1 <= k < m - 1 ==> s[k] == s[..m][1..m - 1][k - 1];
        SpanIs(s[1..], IsNotClose, m - 2);
      }
      if 1 < j < |s| {
        assert s[..j + 1][1..j] == s[1..j];
      }
    }
  }

  /** `re.sub(r'<[^>]+>', ' ', text)`: scans left to right, replacing each tag
      found by one space and copying every other character. */
  function StripTags(s: string): (r: string)
    ensures |r| <= |s|
    decreases |s|
  {
    if s == [] then []
    else
      var n := TagLength(s);
      if n > 0 then " " + StripTags(s[n..]) else [s[0]] + StripTags(s[1..])
  }

  /** Apart from the spaces it writes, the stage only copies characters. */
  lemma {:induction false} StripTagsChars(s: string)
    ensures forall c :: c in StripTags(s) && c != ' ' ==> c in s
    decreases |s|
  {
    if s != [] {
      var k := StripTagsStep(s);
      StripTagsChars(s[k..]);
      assert forall c :: c in s[k..] ==> c in s;
    }
  }

  /** A `<` that starts no tag either is followed at once by `>` (the `<>`
      case) or has no `>` anywhere after it. */
  lemma NoTagAtStart(s: string)
    requires s != [] && s[0] == '<' && TagLength(s) == 0
    ensures (|s| > 1 && s[1] == '>') || '>' !in s[1..]
  {
    var j := 1 + Span(s[1..], IsNotClose);
    if j == |s| {
      assert forall k :: 0 <= k < |s| - 1 ==> IsNotClose(s[1..][k]);
    }
  }

  /** The output of the stage never starts with a tag. */
  lemma StripTagsHead(s: string)
    requires s != []
    ensures TagLength(StripTags(s)) == 0
  {
    var r := StripTags(s);
    if TagLength(s) == 0 && s[0] == '<' {
      NoTagAtStart(s);
      var R := StripTags(s[1..]);
      assert r == ['<'] + R;
      if |s| > 1 && s[1] == '>' {
        assert s[1..][0] == '>';
        assert TagLength(s[1..]) == 0;
        assert R[0] == '>';
        assert r[1..][0] == '>';
        assert Span(r[1..], IsNotClose) == 0;
      } else {
        StripTagsChars(s[1..]);
        assert forall k :: 0 <= k < |R| ==> R[k] in R;
        assert forall k :: 0 <= k < |R| ==> IsNotClose(R[k]);
        assert r[1..] == R;
        SpanIs(R, IsNotClose, |R|);
      }
    }
  }

  /** Tags are removed for good: the output contains no tag. */
  lemma {:induction false} StripTagsLeavesNoTag(s: string)
    ensures NoTag(StripTags(s))
    decreases |s|
  {
    if s != [] {
      var k := StripTagsStep(s);
      StripTagsLeavesNoTag(s[k..]);
      StripTagsHead(s);
      var r := StripTags(s);
      TagLengthMeaning(r);
      NoTagCons(r);
    }
  }

  /** Text that starts with no tag, and has none after its first
      character, has none at all. */
  lemma NoTagCons(r: string)
    requires r != [] && NoTag(r[1..])
    requires forall m :: 0 <= m <= |r| && IsTag(r[..m]) ==> m == 0
    ensures NoTag(r)
  {
    forall i, j | 0 <= i <= j <= |r| ensures !IsTag(r[i..j]) {
      if i > 0 {
        assert r[i..j] == r[1..][i - 1..j - 1];
      } else {
        assert r[i..j] == r[..j];
      }
    }
  }

  /** Text with no tag in it passes through unchanged. */
  lemma {:induction false} StripTagsKeepTagFree(s: string)
    requires NoTag(s)
    ensures StripTags(s) == s
    decreases |s|
  {
    if s != [] {
      assert !IsTag(s[0..TagLength(s)]);
      assert s[..TagLength(s)] == s[0..TagLength(s)];
      forall i, j | 0 <= i <= j <= |s| - 1 ensures !IsTag(s[1..][i..j]) {
        assert s[1..][i..j] == s[i + 1..j + 1];
      }
      StripTagsKeepTagFree(s[1..]);
      assert s == [s[0]] + s[1..];
    }
  }

  /** Stripping twice is stripping once. */
  lemma StripTagsIdempotent(s: string)
    ensures StripTags(StripTags(s)) == StripTags(s)
  {
    StripTagsLeavesNoTag(s);
    StripTagsKeepTagFree(StripTags(s));
  }

  /** A tag on its own becomes exactly one space. */
  lemma StripTagsOfTag(t: string)
    requires IsTag(t)
    ensures StripTags(t) == " "
  {
    assert t[..|t|] == t;
    TagLengthMeaning(t);
    var k := StripTagsStep(t);
    assert t[k..] == [];
  }

  /** `<>` is not a tag: it is copied and scanning goes on after it. */
  lemma EmptyBracketsKept(q: string)
    ensures StripTags("<>" + q) == "<>" + StripTags(q)
  {
    var s := "<>" + q;
    assert s[2..] == q;
    EmptyBracketsStep(s);
  }

  lemma EmptyBracketsStep(s: string)
    requires |s| >= 2 && s[0] == '<' && s[1] == '>'
    ensures StripTags(s) == s[..2] + StripTags(s[2..])
  {
    var t := s[1..];
    assert TagLength(s) == 0 by {
      assert Span(t, IsNotClose) == 0;
    }
    var k := StripTagsStep(s);
    var k' := StripTagsStep(t);
    assert t[1..] == s[2..];
    ConcatAssoc([s[0]], [s[1]], StripTags(s[2..]));
    assert s[..2] == [s[0]] + [s[1]];
  }

  /** A tag found at the start of a text in which every `<` is closed does
      not depend on what follows the text. */
  lemma TagLengthOfConcat(a: string, b: string)
    requires a != [] && Closed(a)
    ensures TagLength(a + b) == TagLength(a)
  {
    var s := a + b;
    var n, N := TagLength(a), TagLength(s);
    TagLengthMeaning(a);
    TagLengthMeaning(s);
    if n > 0 {
      assert s[..n] == a[..n];
    }
    if N > 0 {
      assert '>' in a[1..];
      var k :| 1 <= k < |a| && a[k] == '>';
      assert s[..N][1..N - 1] == s[1..N - 1];
      assert forall i :: 1 <= i < N - 1 ==> s[i] == s[1..N - 1][i - 1] && s[i] != '>';
      assert s[k] == '>';
      assert k >= N - 1;
      assert s[..N] == a[..N];
    }
  }

  /** Cutting the text after a closed prefix does not change the result: the
      stage works piece by piece, a tag becoming one space and tag-free text
      staying as it is (see the two lemmas above). */
  lemma {:induction false} StripTagsSplit(p: string, q: string)
    requires Closed(p)
    ensures StripTags(p + q) == StripTags(p) + StripTags(q)
    decreases |p|, 1
  {
    if p == [] {
      assert p + q == q;
    } else {
      TagLengthOfConcat(p, q);
      var k := StripTagsHeadOfConcat(p, q);
      ClosedSuffix(p, k);
      StripTagsSplitAfterHead(p, q, k);
    }
  }

  /** One step of the scan: a tag becomes a space, any other character is
      copied. */
  lemma StripTagsStep(s: string) returns (k: nat)
    requires s != []
    ensures k == (if TagLength(s) > 0 then TagLength(s) else 1)
    ensures 1 <= k <= |s|
    ensures StripTags(s) == (if TagLength(s) > 0 then " " else [s[0]]) + StripTags(s[k..])
  {
    k := if TagLength(s) > 0 then TagLength(s) else 1;
  }

  /** When the tag found at the start does not depend on what follows `p`,
      the first step of the scan on `p + q` is the first step on `p`. */
  lemma StripTagsHeadOfConcat(p: string, q: string) returns (k: nat)
    requires p != [] && TagLength(p + q) == TagLength(p)
    ensures 1 <= k <= |p|
    ensures StripTags(p) == (if TagLength(p) > 0 then " " else [p[0]]) + StripTags(p[k..])
    ensures StripTags(p + q) == (if TagLength(p) > 0 then " " else [p[0]]) + StripTags(p[k..] + q)
  {
    k := StripTagsStep(p);
    var k' := StripTagsStep(p + q);
    DropOfConcat(p, q, k);
  }

  lemma ClosedSuffix(p: string, k: nat)
    requires Closed(p) && k <= |p|
    ensures Closed(p[k..])
  {
    forall i | 0 <= i < |p| - k && p[k..][i] == '<' ensures '>' in p[k..][i + 1..] {
      assert p[k..][i + 1..] == p[k + i + 1..];
    }
  }

  /** The inductive step of `StripTagsSplit`. */
  lemma {:induction false} StripTagsSplitAfterHead(p: string, q: string, k: nat)
    requires p != [] && 1 <= k <= |p| && Closed(p[k..])
    requires StripTags(p) == (if TagLength(p) > 0 then " " else [p[0]]) + StripTags(p[k..])
    requires StripTags(p + q) == (if TagLength(p) > 0 then " " else [p[0]]) + StripTags(p[k..] + q)
    ensures StripTags(p + q) == StripTags(p) + StripTags(q)
    decreases |p|, 0
  {
    var head := if TagLength(p) > 0 then " " else [p[0]];
    StripTagsSplit(p[k..], q);
    ConcatAssoc(head, StripTags(p[k..]), StripTags(q));
  }

  lemma TagIsClosed(t: string)
    requires IsTag(t)
    ensures Closed(t)
  {
    forall i | 0 <= i < |t| && t[i] == '<' ensures '>' in t[i + 1..] {
      assert t[i + 1..][|t| - i - 2] == '>';
    }
  }

  /** The tag stage in one statement: a tag that follows tag-free, closed
      text becomes one space; the text before it is unchanged. */
  lemma StripTagsReplacesTag(p: string, t: string, q: string)
    requires NoTag(p) && Closed(p) && IsTag(t)
    ensures StripTags(p + t + q) == p + " " + StripTags(q)
  {
    calc {
      StripTags(p + t + q);
      == { ConcatAssoc(p, t, q); }
      StripTags(p + (t + q));
      == { StripTagsSplit(p, t + q); StripTagsKeepTagFree(p); }
      p + StripTags(t + q);
      == { TagIsClosed(t); StripTagsSplit(t, q); StripTagsOfTag(t); }
      p + (" " + StripTags(q));
      == { ConcatAssoc(p, " ", StripTags(q)); }
      p + " " + StripTags(q);
    }
  }
}
