/** The digit stage, `re.sub(r"\d+", "NUMBERS", text)` (main.py:79): every
    maximal run of digits becomes the sentinel `NUMBERS`. */
module Numbers {
  import opened Chars

  /** A non-empty run of digits: what `\d+` matches. */
  predicate IsDigits(d: string) { d != [] && forall i :: 0 <= i < |d| ==> IsDigit(d[i]) }

  /** Scans left to right; at a digit the greedy `\d+` takes the whole run. */
  function ReplaceNumbers(s: string): (r: string)
    decreases |s|
  {
    if s == [] then []
    else if IsDigit(s[0]) then "NUMBERS" + ReplaceNumbers(s[Span(s, IsDigit)..])
    else [s[0]] + ReplaceNumbers(s[1..])
  }

  /** No digit survives the stage: the sentinel holds none and every other
      character copied is not a digit. */
  lemma {:induction false} NumbersLeaveNoDigit(s: string)
    ensures NoDigit(ReplaceNumbers(s))
    decreases |s|
  {
    if s != [] {
      var k := NumbersStep(s);
      var r := ReplaceNumbers(s[k..]);
      NumbersLeaveNoDigit(s[k..]);
      var head := if IsDigit(s[0]) then "NUMBERS" else [s[0]];
      assert NoDigit(head);
      assert forall i :: 0 <= i < |head + r| ==> (head + r)[i] == if i < |head| then head[i] else r[i - |head|];
    }
  }

  /** Text without digits passes through unchanged. */
  lemma {:induction false} NumbersKeepDigitFree(s: string)
    requires NoDigit(s)
    ensures ReplaceNumbers(s) == s
    decreases |s|
  {
    if s != [] {
      assert NoDigit(s[1..]);
      NumbersKeepDigitFree(s[1..]);
      assert s == [s[0]] + s[1..];
    }
  }

  /** A run of digits on its own becomes exactly one sentinel. */
  lemma NumbersOfRun(d: string)
    requires IsDigits(d)
    ensures ReplaceNumbers(d) == "NUMBERS"
  {
    SpanIs(d, IsDigit, |d|);
    assert d[|d|..] == [];
  }

  /** The stage works piece by piece on any split that does not cut a run of
      digits in two. */
  lemma {:induction false} NumbersSplit(p: string, q: string)
    requires p == [] || q == [] || !IsDigit(p[|p| - 1]) || !IsDigit(q[0])
    ensures ReplaceNumbers(p + q) == ReplaceNumbers(p) + ReplaceNumbers(q)
    decreases |p|, 1
  {
    if p == [] {
      assert p + q == q;
    } else if q == [] {
      assert p + q == p;
    } else {
      var k := NumbersHeadOfConcat(p, q);
      NumbersSplitAfterHead(p, q, k);
    }
  }

  /** The inductive step of `NumbersSplit`, once the first step of the scan
      is known to be the same on `p` and on `p + q`. */
  lemma {:induction false} NumbersSplitAfterHead(p: string, q: string, k: nat)
    requires p != [] && q != [] && (!IsDigit(p[|p| - 1]) || !IsDigit(q[0]))
    requires 1 <= k <= |p|
    requires ReplaceNumbers(p) == (if IsDigit(p[0]) then "NUMBERS" else [p[0]]) + ReplaceNumbers(p[k..])
    requires ReplaceNumbers(p + q) == (if IsDigit(p[0]) then "NUMBERS" else [p[0]]) + ReplaceNumbers(p[k..] + q)
    ensures ReplaceNumbers(p + q) == ReplaceNumbers(p) + ReplaceNumbers(q)
    decreases |p|, 0
  {
    var head := if IsDigit(p[0]) then "NUMBERS" else [p[0]];
    var a, b := ReplaceNumbers(p[k..]), ReplaceNumbers(q);
    assert p[k..] != [] ==> p[k..][|p[k..]| - 1] == p[|p| - 1];
    NumbersSplit(p[k..], q);
    ConcatAssoc(head, a, b);
  }

  /** When the split does not cut a digit run, the first step of the scan on
      `p + q` is the first step on `p`. */
  lemma NumbersHeadOfConcat(p: string, q: string) returns (k: nat)
    requires p != [] && q != [] && (!IsDigit(p[|p| - 1]) || !IsDigit(q[0]))
    ensures 1 <= k <= |p|
    ensures ReplaceNumbers(p) == (if IsDigit(p[0]) then "NUMBERS" else [p[0]]) + ReplaceNumbers(p[k..])
    ensures ReplaceNumbers(p + q) == (if IsDigit(p[0]) then "NUMBERS" else [p[0]]) + ReplaceNumbers(p[k..] + q)
  {
    var s := p + q;
    k := NumbersStep(p);
    if IsDigit(p[0]) {
      if k == |p| {
        assert IsDigit(p[|p| - 1]);
      }
      SpanOfConcat(p, q, IsDigit);
    }
    var k' := NumbersStep(s);
    DropOfConcat(p, q, k);
  }

  /** One step of the scan: a digit run becomes `NUMBERS`, any other
      character is copied. */
  lemma NumbersStep(s: string) returns (k: nat)
    requires s != []
    ensures k == (if IsDigit(s[0]) then Span(s, IsDigit) else 1)
    ensures 1 <= k <= |s|
    ensures ReplaceNumbers(s) == (if IsDigit(s[0]) then "NUMBERS" else [s[0]]) + ReplaceNumbers(s[k..])
  {
    k := if IsDigit(s[0]) then Span(s, IsDigit) else 1;
  }

  /** Each maximal run of digits becomes exactly one `NUMBERS`, and the text
      around it is treated as if the run were not there. */
  lemma NumbersReplaceEachRun(p: string, d: string, q: string)
    requires IsDigits(d)
    requires p == [] || !IsDigit(p[|p| - 1])
    requires q == [] || !IsDigit(q[0])
    ensures ReplaceNumbers(p + d + q) == ReplaceNumbers(p) + "NUMBERS" + ReplaceNumbers(q)
  {
    calc {
      ReplaceNumbers(p + d + q);
      == { ConcatAssoc(p, d, q); }
      ReplaceNumbers(p + (d + q));
      == { NumbersSplit(p, d + q); }
      ReplaceNumbers(p) + ReplaceNumbers(d + q);
      == { NumbersSplit(d, q); NumbersOfRun(d); }
      ReplaceNumbers(p) + ("NUMBERS" + ReplaceNumbers(q));
      == { ConcatAssoc(ReplaceNumbers(p), "NUMBERS", ReplaceNumbers(q)); }
      ReplaceNumbers(p) + "NUMBERS" + ReplaceNumbers(q);
    }
  }
}
