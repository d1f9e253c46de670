/** The URL stage, `re.sub(r"http\S+|www\S+", "URL", text)` (main.py:78):
    from each `http` or `www` that is followed by at least one more
    non-whitespace character, the rest of that run of non-whitespace is
    replaced by the sentinel `URL`. */
module Urls {
  import opened Chars

  /** `t` is matched in full by `http\S+` or by `www\S+`. */
  predicate IsUrl(t: string) {
    && ((|t| >= 5 && t[..4] == "http") || (|t| >= 4 && t[..3] == "www"))
    && NoSpace(t)
  }

  /** No substring of `s` is a URL. */
  predicate NoUrl(s: string) {
    forall i, j :: 0 <= i <= j <= |s| ==> !IsUrl(s[i..j])
  }

  /** Length of the URL match at the start of `s`, or 0 when none starts
      there. `\S+` is greedy, so a match runs to the end of the run of
      non-whitespace it starts in. */
  function UrlLength(s: string): (n: nat)
    ensures n <= |s|
    ensures n == 0 || n >= 4
  {
    var n := Span(s, IsNonSpace);
    if (n >= 5 && s[..4] == "http") || (n >= 4 && s[..3] == "www") then n else 0
  }

  /** What `UrlLength` finds is a URL that stops only at whitespace or at the
      end of the text, and when it finds none, no URL starts there. */
  lemma UrlLengthMeaning(s: string)
    ensures var n := UrlLength(s);
      && (n > 0 ==> IsUrl(s[..n]) && (n == |s| || IsSpace(s[n])))
      && (n == 0 ==> forall m :: 0 <= m <= |s| ==> !IsUrl(s[..m]))
  {
    var n := Span(s, IsNonSpace);
    assert forall m :: n < m <= |s| ==> IsSpace(s[..m][n]);
    assert forall m :: 4 <= m <= n ==> s[..m][..4] == s[..4] && s[..m][..3] == s[..3];
  }

  /** Scans left to right, replacing each match by `URL` and copying every
      other character. Every match is at least four characters long, so the
      text never grows. */
  function ReplaceUrls(s: string): (r: string)
    ensures |r| <= |s|
    decreases |s|
  {
    if s == [] then []
    else
      var n := UrlLength(s);
      if n > 0 then "URL" + ReplaceUrls(s[n..]) else [s[0]] + ReplaceUrls(s[1..])
  }

  /** One step of the scan: the output starts with `URL` for a match of
      length `k`, or with the first character when `k` is 1. */
  lemma UrlsStep(s: string) returns (k: nat)
    requires s != []
    ensures k == (if UrlLength(s) > 0 then UrlLength(s) else 1)
    ensures 1 <= k <= |s|
    ensures ReplaceUrls(s) == (if UrlLength(s) > 0 then "URL" else [s[0]]) + ReplaceUrls(s[k..])
  {
    k := if UrlLength(s) > 0 then UrlLength(s) else 1;
  }

  /** Text with no URL in it passes through unchanged. */
  lemma {:induction false} UrlsKeepUrlFree(s: string)
    requires NoUrl(s)
    ensures ReplaceUrls(s) == s
    decreases |s|
  {
    if s != [] {
      UrlLengthMeaning(s);
      assert !IsUrl(s[0..UrlLength(s)]);
      assert s[..UrlLength(s)] == s[0..UrlLength(s)];
      forall i, j | 0 <= i <= j <= |s| - 1 ensures !IsUrl(s[1..][i..j]) {
        assert s[1..][i..j] == s[i + 1..j + 1];
      }
      UrlsKeepUrlFree(s[1..]);
      assert s == [s[0]] + s[1..];
    }
  }

  /** Up to its first `U`, the output repeats the input, and whitespace in
      the output sits where whitespace was in the input. */
  lemma {:induction false} UrlsPrefix(t: string, k: nat)
    requires k < |ReplaceUrls(t)|
    requires forall m :: 0 <= m < k ==> ReplaceUrls(t)[m] != 'U'
    ensures k < |t|
    ensures forall m :: 0 <= m < k ==> ReplaceUrls(t)[m] == t[m]
    ensures IsSpace(ReplaceUrls(t)[k]) == IsSpace(t[k])
    decreases k
  {
    var r := ReplaceUrls(t);
    var n := UrlLength(t);
    if n > 0 {
      assert r[0] == 'U';
      UrlLengthMeaning(t);
      assert t[..n][0] == t[0];
    } else {
      var R := ReplaceUrls(t[1..]);
      assert r == [t[0]] + R;
      if k > 0 {
        assert forall m :: 0 <= m < k - 1 ==> R[m] == r[m + 1];
        UrlsPrefix(t[1..], k - 1);
        assert forall m :: 0 <= m < k - 1 ==> t[1..][m] == t[m + 1];
      }
    }
  }

  /** URLs are replaced for good: the output contains no URL. */
  lemma {:induction false} UrlsLeaveNoUrl(s: string)
    ensures NoUrl(ReplaceUrls(s))
    decreases |s|
  {
    if s != [] {
      var k := UrlsStep(s);
      UrlsLeaveNoUrl(s[k..]);
      if UrlLength(s) > 0 {
        NoUrlAfterSentinel(ReplaceUrls(s[k..]));
      } else {
        UrlsHeadNoUrl(s);
        NoUrlAfterHead(s[0], ReplaceUrls(s[k..]));
      }
    }
  }

  /** A URL-free text stays URL-free under one more character in front,
      provided no URL starts at that character. */
  lemma NoUrlAfterHead(c: char, R: string)
    requires NoUrl(R)
    requires forall j :: 0 <= j <= |R| + 1 ==> !IsUrl(([c] + R)[..j])
    ensures NoUrl([c] + R)
  {
    var r := [c] + R;
    forall i, j | 0 <= i <= j <= |r| ensures !IsUrl(r[i..j]) {
      if i > 0 {
        assert r[i..j] == R[i - 1..j - 1];
      } else {
        assert r[i..j] == r[..j];
      }
    }
  }

  /** `URL` itself holds no URL, so putting it in front of URL-free text
      keeps the text URL-free. */
  lemma NoUrlAfterSentinel(R: string)
    requires NoUrl(R)
    ensures NoUrl("URL" + R)
  {
    var r := "URL" + R;
    forall i, j | 0 <= i <= j <= |r| ensures !IsUrl(r[i..j]) {
      if i >= 3 {
        assert r[i..j] == R[i - 3..j - 3];
      } else {
        assert r[i] != 'h' && r[i] != 'w';
        assert j - i >= 4 ==> r[i..j][..3][0] == r[i];
      }
    }
  }

  /** When no match starts at the first character of the input, none starts
      at the first character of the output: the `http` or `www` that the
      output starts with is followed by whitespace, as in the input. */
  lemma UrlsHeadNoUrl(s: string)
    requires s != [] && UrlLength(s) == 0
    ensures forall j :: 0 <= j <= |ReplaceUrls(s)| ==> !IsUrl(ReplaceUrls(s)[..j])
  {
    var r := ReplaceUrls(s);
    UrlLengthMeaning(s);
    if |r| >= 5 && r[..4] == "http" {
      assert forall m :: 0 <= m < 4 ==> r[m] == r[..4][m];
      UrlsPrefix(s, 4);
      assert s[..4] == r[..4];
    }
    if |r| >= 4 && r[..3] == "www" {
      assert forall m :: 0 <= m < 3 ==> r[m] == r[..3][m];
      UrlsPrefix(s, 3);
      assert s[..3] == r[..3];
    }
    NoUrlHead(s, r);
  }

  /** If `r` starts like `s` up to the first whitespace after an `http` or
      `www`, and no URL starts at the start of `s`, none starts at the start
      of `r` either. */
  lemma NoUrlHead(s: string, r: string)
    requires forall m :: 0 <= m <= |s| ==> !IsUrl(s[..m])
    requires |r| >= 5 && r[..4] == "http" ==> |s| >= 5 && s[..4] == r[..4] && IsSpace(s[4]) == IsSpace(r[4])
    requires |r| >= 4 && r[..3] == "www" ==> |s| >= 4 && s[..3] == r[..3] && IsSpace(s[3]) == IsSpace(r[3])
    ensures forall j :: 0 <= j <= |r| ==> !IsUrl(r[..j])
  {
    forall j | 0 <= j <= |r| ensures !IsUrl(r[..j]) {
      var t := r[..j];
      if j >= 5 && t[..4] == "http" {
        assert r[..4] == t[..4];
        var u := s[..5];
        assert u[..4] == s[..4] && !IsUrl(u);
        assert forall m :: 0 <= m < 4 ==> !IsSpace(u[m]);
        assert IsSpace(u[4]) && t[4] == r[4];
      } else if j >= 4 && t[..3] == "www" {
        assert r[..3] == t[..3];
        var u := s[..4];
        assert u[..3] == s[..3] && !IsUrl(u);
        assert forall m :: 0 <= m < 3 ==> !IsSpace(u[m]);
        assert IsSpace(u[3]) && t[3] == r[3];
      }
    }
  }

  /** Matches never cross whitespace: the stage works piece by piece on any
      split made at whitespace. */
  lemma {:induction false} UrlsSplit(p: string, q: string)
    requires p == [] || q == [] || IsSpace(p[|p| - 1]) || IsSpace(q[0])
    ensures ReplaceUrls(p + q) == ReplaceUrls(p) + ReplaceUrls(q)
    decreases |p|
  {
    if p == [] {
      assert p + q == q;
    } else if q == [] {
      assert p + q == p;
    } else {
      var head := if UrlLength(p) > 0 then "URL" else [p[0]];
      var k := UrlsHeadOfConcat(p, q);
      assert p[k..] != [] ==> p[k..][|p[k..]| - 1] == p[|p| - 1];
      UrlsSplit(p[k..], q);
      ConcatAssoc(head, ReplaceUrls(p[k..]), ReplaceUrls(q));
    }
  }

  /** When `p` ends in whitespace or `q` starts with it, the first step of
      the scan on `p + q` is the first step on `p`. */
  lemma UrlsHeadOfConcat(p: string, q: string) returns (k: nat)
    requires p != [] && q != [] && (IsSpace(p[|p| - 1]) || IsSpace(q[0]))
    ensures 1 <= k <= |p|
    ensures ReplaceUrls(p) == (if UrlLength(p) > 0 then "URL" else [p[0]]) + ReplaceUrls(p[k..])
    ensures ReplaceUrls(p + q) == (if UrlLength(p) > 0 then "URL" else [p[0]]) + ReplaceUrls(p[k..] + q)
  {
    UrlLengthOfConcat(p, q);
    k := UrlsStep(p);
    var k' := UrlsStep(p + q);
    DropOfConcat(p, q, k);
  }

  lemma UrlLengthOfConcat(p: string, q: string)
    requires p != [] && q != [] && (IsSpace(p[|p| - 1]) || IsSpace(q[0]))
    ensures UrlLength(p + q) == UrlLength(p)
  {
    if IsSpace(p[|p| - 1]) {
      assert !IsNonSpace(p[|p| - 1]);
    }
    SpanOfConcat(p, q, IsNonSpace);
    var n := Span(p, IsNonSpace);
    assert n >= 4 ==> (p + q)[..4] == p[..4] && (p + q)[..3] == p[..3];
  }

  /** Inside one run of non-whitespace, everything from the first position
      where `http` or `www` starts a match is replaced by one `URL`; the
      characters before it are unchanged. */
  lemma {:induction false} UrlsInWord(w: string, p: nat)
    requires NoSpace(w)
    requires p <= |w| && IsUrl(w[p..])
    requires forall i :: 0 <= i < p ==> !IsUrl(w[i..])
    ensures ReplaceUrls(w) == w[..p] + "URL"
    decreases p
  {
    UrlLengthOfWord(w);
    assert w[0..] == w;
    var k := UrlsStep(w);
    if p == 0 {
      assert w[k..] == [];
    } else {
      var t := w[1..];
      FirstNotUrl(w, p);
      calc {
        ReplaceUrls(w);
        [w[0]] + ReplaceUrls(t);
        == { UrlsInWord(t, p - 1); }
        [w[0]] + (t[..p - 1] + "URL");
        == { ConsThenSentinel(w, p); }
        w[..p] + "URL";
      }
    }
  }

  /** When no match starts at the first character, the rest of the run
      meets the same conditions with the match one place earlier. */
  lemma FirstNotUrl(w: string, p: nat)
    requires NoSpace(w)
    requires 0 < p <= |w| && IsUrl(w[p..])
    requires forall i :: 0 <= i < p ==> !IsUrl(w[i..])
    ensures NoSpace(w[1..]) && IsUrl(w[1..][p - 1..])
    ensures forall i :: 0 <= i < p - 1 ==> !IsUrl(w[1..][i..])
  {
    var t := w[1..];
    assert t[p - 1..] == w[p..];
    forall i | 0 <= i < p - 1 ensures !IsUrl(t[i..]) {
      assert t[i..] == w[i + 1..];
    }
  }

  lemma ConsThenSentinel(w: string, p: nat)
    requires 0 < p <= |w|
    ensures [w[0]] + (w[1..][..p - 1] + "URL") == w[..p] + "URL"
  {
    assert w[..p] == [w[0]] + w[1..][..p - 1];
  }

  /** In a run of non-whitespace, a match at the start is the whole run. */
  lemma UrlLengthOfWord(w: string)
    requires NoSpace(w)
    ensures UrlLength(w) == if IsUrl(w) then |w| else 0
  {
    SpanIs(w, IsNonSpace, |w|);
  }

  /** A run of non-whitespace with no match in it is left as it is. */
  lemma UrlsWordWithoutUrl(w: string)
    requires NoSpace(w)
    requires forall i :: 0 <= i <= |w| ==> !IsUrl(w[i..])
    ensures ReplaceUrls(w) == w
  {
    forall i, j | 0 <= i <= j <= |w| ensures !IsUrl(w[i..j]) {
      assert w[i..j] == w[i..][..j - i];
      assert !IsUrl(w[i..]);
      if IsUrl(w[i..j]) {
        UrlExtends(w[i..], j - i);
      }
    }
    UrlsKeepUrlFree(w);
  }

  /** A URL followed by more non-whitespace is still a URL. */
  lemma UrlExtends(t: string, m: nat)
    requires m <= |t| && NoSpace(t) && IsUrl(t[..m])
    ensures IsUrl(t)
  {
    assert t[..m][..3] == t[..3];
    if m >= 5 {
      assert t[..m][..4] == t[..4];
    }
  }
}
