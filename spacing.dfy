/** The whitespace stage, `re.sub(r'\s+', ' ', text).strip()` (main.py:81),
    and its reference reading, Python's `" ".join(text.split())`: the words of
    the text, joined by single spaces. */
module Spacing {
  import opened Chars
  import opened Tokens

  /** `re.sub(r'\s+', ' ', text)`: scans left to right; each maximal run of
      whitespace becomes one space and everything between runs is copied. */
  function Collapse(s: string): (r: string)
    ensures |r| <= |s|
    ensures forall c :: c in r ==> c == ' ' || c in s
    decreases |s|
  {
    if s == [] then []
    else if IsSpace(s[0]) then " " + Collapse(s[Span(s, IsSpace)..])
    else
      var n := Span(s, IsNonSpace);
      s[..n] + Collapse(s[n..])
  }

  /** Drops trailing whitespace. */
  function TrimEnd(s: string): (r: string)
    ensures |r| <= |s| && r == s[..|r|] && AllSpace(s[|r|..])
    ensures r == [] || !IsSpace(r[|r| - 1])
    decreases |s|
  {
    if s != [] && IsSpace(s[|s| - 1]) then
      var r := TrimEnd(s[..|s| - 1]);
      assert s[..|s| - 1][|r|..] + [s[|s| - 1]] == s[|r|..];
      r
    else s
  }

  /** `text.strip()`: the text without its leading and trailing whitespace. */
  function Strip(s: string): (r: string)
    ensures exists i :: 0 <= i <= |s| - |r| && r == s[i..i + |r|] && AllSpace(s[..i]) && AllSpace(s[i + |r|..])
    ensures r == [] || (!IsSpace(r[0]) && !IsSpace(r[|r| - 1]))
    ensures forall c :: c in r ==> c in s
  {
    var i := Span(s, IsSpace);
    var r := TrimEnd(s[i..]);
    StripParts(s, i, r);
    r
  }

  /** The pieces `strip()` cuts a text into: leading whitespace, the kept
      middle, trailing whitespace. */
  lemma StripParts(s: string, i: nat, r: string)
    requires i <= |s| && (forall k :: 0 <= k < i ==> IsSpace(s[k])) && (i < |s| ==> !IsSpace(s[i]))
    requires |r| <= |s| - i && r == s[i..][..|r|] && AllSpace(s[i..][|r|..])
    requires r == [] || !IsSpace(r[|r| - 1])
    ensures i + |r| <= |s| && r == s[i..i + |r|]
    ensures AllSpace(s[..i]) && AllSpace(s[i + |r|..])
    ensures r == [] || (!IsSpace(r[0]) && !IsSpace(r[|r| - 1]))
    ensures forall c :: c in r ==> c in s
  {
    var t := s[i..];
    assert r == s[i..i + |r|] by {
      assert r == t[..|r|];
    }
    assert AllSpace(s[i + |r|..]) by {
      assert t[|r|..] == s[i + |r|..];
    }
    forall k | 0 <= k < i ensures IsSpace(s[..i][k]) {
      assert s[..i][k] == s[k];
    }
    forall c | c in r ensures c in s {
      var k :| 0 <= k < |r| && r[k] == c;
      assert s[i + k] == c;
    }
  }

  /** Python's `text.split()` with no argument: the maximal runs of
      non-whitespace, in order. */
  function Words(s: string): (ws: seq<string>)
    ensures forall w :: w in ws ==> w != [] && NoSpace(w)
    ensures forall w, c :: w in ws && c in w ==> c in s
    decreases |s|
  {
    if s == [] then []
    else if IsSpace(s[0]) then Words(s[Span(s, IsSpace)..])
    else
      var n := Span(s, IsNonSpace);
      assert forall k :: 0 <= k < n ==> !IsSpace(s[..n][k]);
      [s[..n]] + Words(s[n..])
  }

  /** The shape the whitespace stage leaves: every whitespace character is a
      plain space with a non-space character on either side, so there is no
      space at either end and no two spaces in a row. */
  predicate SingleSpaced(r: string) {
    forall i :: 0 <= i < |r| && IsSpace(r[i]) ==>
      r[i] == ' ' && 0 < i < |r| - 1 && !IsSpace(r[i - 1]) && !IsSpace(r[i + 1])
  }

  /** All words are non-empty and free of whitespace. */
  predicate AreWords(ws: seq<string>) {
    forall w :: w in ws ==> w != [] && NoSpace(w)
  }

  /** Joining words starts and ends with a non-space character. */
  lemma {:induction false} JoinEnds(ws: seq<string>)
    requires ws != [] && AreWords(ws)
    ensures var j := Join(ws); j != [] && !IsSpace(j[0]) && !IsSpace(j[|j| - 1])
    decreases |ws|
  {
    assert ws[0] in ws;
    if |ws| > 1 {
      assert forall w :: w in ws[1..] ==> w in ws;
      JoinEnds(ws[1..]);
    }
  }

  /** Joining words with single spaces gives single-spaced text. */
  lemma {:induction false} JoinSingleSpaced(ws: seq<string>)
    requires AreWords(ws)
    ensures SingleSpaced(Join(ws))
    decreases |ws|
  {
    if ws != [] {
      var w := ws[0];
      assert w in ws;
      if |ws| > 1 {
        var rest := ws[1..];
        assert forall v :: v in rest ==> v in ws;
        JoinSingleSpaced(rest);
        JoinEnds(rest);
        var j := Join(rest);
        var r := w + " " + j;
        assert Join(ws) == r;
        forall i | 0 <= i < |r| && IsSpace(r[i])
          ensures r[i] == ' ' && 0 < i < |r| - 1 && !IsSpace(r[i - 1]) && !IsSpace(r[i + 1])
        {
          if i > |w| {
            assert r[i] == j[i - |w| - 1];
            assert r[i - 1] == j[i - |w| - 2] && r[i + 1] == j[i - |w|];
          } else {
            assert i == |w| && r[i - 1] == w[|w| - 1] && r[i + 1] == j[0];
          }
        }
      }
    }
  }

  /** Text that starts with a word collapses to its words joined by single
      spaces, plus one space when it ends in whitespace. */
  lemma {:induction false} CollapseFromWord(s: string)
    requires s == [] || !IsSpace(s[0])
    ensures Collapse(s) == Join(Words(s)) + (if s != [] && IsSpace(s[|s| - 1]) then " " else "")
    decreases |s|
  {
    if s != [] {
      var w, gap, rest := WordThenGap(s);
      CollapseFromWord(rest);
      if rest == [] {
        assert Words(s) == [w];
        assert Collapse(s) == w + gap;
      } else {
        assert Words(rest) != [];
        JoinCons(w, Words(rest));
        var tail := if IsSpace(s[|s| - 1]) then " " else "";
        calc {
          Collapse(s);
          w + gap + Collapse(rest);
          w + " " + (Join(Words(rest)) + tail);
          == { ConcatAssoc(w + " ", Join(Words(rest)), tail); }
          w + " " + Join(Words(rest)) + tail;
        }
      }
    }
  }

  /** The first word of a text that starts with one, the whitespace run
      after it (collapsed to `gap`), and the text after that. */
  lemma WordThenGap(s: string) returns (w: string, gap: string, rest: string)
    requires s != [] && !IsSpace(s[0])
    ensures |rest| < |s| && (rest == [] || !IsSpace(rest[0]))
    ensures Words(s) == [w] + Words(rest)
    ensures Collapse(s) == w + gap + Collapse(rest)
    ensures rest == [] ==> gap == (if IsSpace(s[|s| - 1]) then " " else "")
    ensures rest != [] ==> gap == " " && s[|s| - 1] == rest[|rest| - 1]
  {
    var n := WordSpan(s);
    w := s[..n];
    var after := s[n..];
    WordHeadWords(s, n);
    WordHeadCollapse(s, n);
    if after == [] {
      gap, rest := [], [];
      assert w + gap == w;
    } else {
      var m := GapSpan(after);
      gap, rest := " ", after[m..];
      GapHeadWords(after, m);
      GapHeadCollapse(after, m);
      GapEnds(s, n, m);
      ConcatAssoc(w, " ", Collapse(rest));
    }
  }

  /** Where the first word of a text that starts with one ends. */
  lemma WordSpan(s: string) returns (n: nat)
    requires s != [] && !IsSpace(s[0])
    ensures n == Span(s, IsNonSpace)
    ensures 0 < n <= |s| && (n == |s| || IsSpace(s[n])) && !IsSpace(s[n - 1])
    ensures forall k :: 0 <= k < n ==> !IsSpace(s[k])
  {
    n := Span(s, IsNonSpace);
  }

  /** Where a whitespace run at the start of a text ends. */
  lemma GapSpan(s: string) returns (m: nat)
    requires s != [] && IsSpace(s[0])
    ensures m == Span(s, IsSpace)
    ensures 0 < m <= |s| && (m == |s| || !IsSpace(s[m]))
    ensures forall k :: 0 <= k < m ==> IsSpace(s[k])
  {
    m := Span(s, IsSpace);
  }

  /** One unfolding of `Words` at a word. */
  lemma WordHeadWords(s: string, n: nat)
    requires s != [] && !IsSpace(s[0]) && n == Span(s, IsNonSpace)
    ensures Words(s) == [s[..n]] + Words(s[n..])
  {
  }

  /** One unfolding of `Collapse` at a word. */
  lemma WordHeadCollapse(s: string, n: nat)
    requires s != [] && !IsSpace(s[0]) && n == Span(s, IsNonSpace)
    ensures Collapse(s) == s[..n] + Collapse(s[n..])
  {
  }

  /** One unfolding of `Words` at a whitespace run. */
  lemma GapHeadWords(s: string, m: nat)
    requires s != [] && IsSpace(s[0]) && m == Span(s, IsSpace)
    ensures Words(s) == Words(s[m..])
  {
  }

  /** One unfolding of `Collapse` at a whitespace run. */
  lemma GapHeadCollapse(s: string, m: nat)
    requires s != [] && IsSpace(s[0]) && m == Span(s, IsSpace)
    ensures Collapse(s) == " " + Collapse(s[m..])
  {
  }

  /** After a word at `n` and a whitespace run of length `m`, the text left
      over is shorter, starts with a word, and ends where the text ends; when
      nothing is left over, the text ended in whitespace. */
  lemma GapEnds(s: string, n: nat, m: nat)
    requires 0 < n < |s| && 0 < m <= |s| - n
    requires forall k :: 0 <= k < m ==> IsSpace(s[n..][k])
    requires m == |s| - n || !IsSpace(s[n..][m])
    ensures var rest := s[n..][m..];
      && |rest| < |s| && (rest == [] || !IsSpace(rest[0]))
      && (rest == [] ==> IsSpace(s[|s| - 1]))
      && (rest != [] ==> s[|s| - 1] == rest[|rest| - 1])
  {
    assert s[|s| - 1] == s[n..][|s| - n - 1];
  }

  /** One unfolding of both scans at a word. */
  lemma WordHead(s: string) returns (n: nat)
    requires s != [] && !IsSpace(s[0])
    ensures 0 < n <= |s| && (n == |s| || IsSpace(s[n])) && !IsSpace(s[n - 1])
    ensures forall k :: 0 <= k < n ==> !IsSpace(s[k])
    ensures Words(s) == [s[..n]] + Words(s[n..])
    ensures Collapse(s) == s[..n] + Collapse(s[n..])
  {
    n := WordSpan(s);
    WordHeadWords(s, n);
    WordHeadCollapse(s, n);
  }

  /** One unfolding of both scans at a whitespace run. */
  lemma GapHead(s: string) returns (m: nat)
    requires s != [] && IsSpace(s[0])
    ensures 0 < m <= |s| && (m == |s| || !IsSpace(s[m]))
    ensures forall k :: 0 <= k < m ==> IsSpace(s[k])
    ensures Words(s) == Words(s[m..])
    ensures Collapse(s) == " " + Collapse(s[m..])
  {
    m := GapSpan(s);
    GapHeadWords(s, m);
    GapHeadCollapse(s, m);
  }

  /** A word followed by whitespace or by nothing is the first word. */
  lemma WordsAfterWord(w: string, r: string)
    requires w != [] && NoSpace(w) && (r == [] || IsSpace(r[0]))
    ensures Words(w + r) == [w] + Words(r)
  {
    var s := w + r;
    var n := WordHead(s);
    assert forall k :: 0 <= k < |w| ==> s[k] == w[k];
    assert r != [] ==> s[|w|] == r[0];
    assert n == |w|;
    assert s[..n] == w && s[n..] == r;
  }

  /** Whitespace in front of text that starts with a word adds no word. */
  lemma WordsAfterGap(g: string, t: string)
    requires g != [] && AllSpace(g) && (t == [] || !IsSpace(t[0]))
    ensures Words(g + t) == Words(t)
  {
    var s := g + t;
    var m := GapHead(s);
    assert forall k :: 0 <= k < |g| ==> s[k] == g[k];
    assert t != [] ==> s[|g|] == t[0];
    assert m == |g|;
    assert s[m..] == t;
  }

  /** Trailing whitespace after text that ends in a non-space character is
      exactly what `TrimEnd` removes. */
  lemma {:induction false} TrimEndPadded(j: string, b: string)
    requires AllSpace(b)
    requires j == [] || !IsSpace(j[|j| - 1])
    ensures TrimEnd(j + b) == j
    decreases |b|
  {
    if b == [] {
      assert j + b == j;
    } else {
      assert (j + b)[..|j + b| - 1] == j + b[..|b| - 1];
      TrimEndPadded(j, b[..|b| - 1]);
    }
  }

  /** `strip()` of text padded with whitespace gives back the text, when the
      text itself neither starts nor ends with whitespace. */
  lemma StripPadded(a: string, j: string, b: string)
    requires AllSpace(a) && AllSpace(b)
    requires j == [] || (!IsSpace(j[0]) && !IsSpace(j[|j| - 1]))
    ensures Strip(a + j + b) == j
  {
    var s := a + j + b;
    if j == [] {
      assert s == a + b;
      SpanIs(s, IsSpace, |s|);
      assert s[|s|..] == [];
    } else {
      SpanIs(s, IsSpace, |a|);
      assert s[|a|..] == j + b;
      TrimEndPadded(j, b);
    }
  }

  /** Leading whitespace, then text that starts with a word: stripping its
      collapse leaves the words joined by single spaces. */
  lemma StripCollapseFromWord(lead: string, t: string)
    requires AllSpace(lead)
    requires t == [] || !IsSpace(t[0])
    ensures Strip(lead + Collapse(t)) == Join(Words(t))
  {
    CollapseFromWord(t);
    var j := Join(Words(t));
    if Words(t) != [] {
      JoinEnds(Words(t));
    }
    var trail := if t != [] && IsSpace(t[|t| - 1]) then " " else "";
    calc {
      Strip(lead + Collapse(t));
      Strip(lead + (j + trail));
      == { ConcatAssoc(lead, j, trail); }
      Strip(lead + j + trail);
      == { StripPadded(lead, j, trail); }
      j;
    }
  }

  /** The whitespace stage agrees with its reference reading: collapsing
      whitespace runs and stripping is joining the words with single spaces. */
  lemma TidyIsJoinedWords(s: string)
    ensures Strip(Collapse(s)) == Join(Words(s))
  {
    if s != [] && IsSpace(s[0]) {
      var t := s[Span(s, IsSpace)..];
      assert Collapse(s) == " " + Collapse(t);
      StripCollapseFromWord(" ", t);
    } else {
      assert Collapse(s) == [] + Collapse(s);
      StripCollapseFromWord([], s);
    }
  }

  /** `re.sub(r'\s+', ' ', text).strip()` */
  function Tidy(s: string): (r: string)
  {
    Strip(Collapse(s))
  }

  /** After main.py:81 the text is single-spaced: no space at either end, no
      two spaces in a row and no whitespace other than the plain space. */
  lemma TidySingleSpaced(s: string)
    ensures SingleSpaced(Tidy(s))
  {
    TidyIsJoinedWords(s);
    JoinSingleSpaced(Words(s));
  }

  /** Splitting the tidied text on single spaces (main.py:84) gives its words,
      all non-empty; only text without words gives the single empty token. */
  lemma TidySplit(s: string)
    ensures Split(Tidy(s)) == if Words(s) == [] then [""] else Words(s)
  {
    TidyIsJoinedWords(s);
    var ws := Words(s);
    if ws != [] {
      forall t | t in ws ensures ' ' !in t {
        assert forall i :: 0 <= i < |t| ==> !IsSpace(t[i]);
      }
      SplitJoin(ws);
    } else {
      SpanIs([], IsNotBlank, 0);
    }
  }
}
