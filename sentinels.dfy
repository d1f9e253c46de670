/** The sentinels `URL` and `NUMBERS` are inserted in upper case after the
    text has been lowercased (main.py:76-80). Until stemming, every capital in
    the text therefore belongs to one of them. This module states that as a
    grammar and shows that each stage keeps it. */
module Sentinels {
  import opened Chars
  import opened Urls
  import opened Numbers
  import opened Letters
  import opened Spacing

  /** `t` reads as a sequence of whole sentinels and characters that are not
      capitals. */
  predicate SentinelCased(t: string)
    decreases |t|
  {
    || t == []
    || (|t| >= 3 && t[..3] == "URL" && SentinelCased(t[3..]))
    || (|t| >= 7 && t[..7] == "NUMBERS" && SentinelCased(t[7..]))
    || (!IsUpper(t[0]) && SentinelCased(t[1..]))
  }

  /** Text without capitals is sentinel-cased. */
  lemma {:induction false} NoUpperSentinelCased(t: string)
    requires NoUpper(t)
    ensures SentinelCased(t)
    decreases |t|
  {
    if t != [] {
      NoUpperSentinelCased(t[1..]);
    }
  }

  /** A character that is not a capital cannot start a sentinel, so it is
      read on its own and what follows it is sentinel-cased. */
  lemma {:induction false} SentinelCasedSkip(t: string, m: nat)
    requires SentinelCased(t) && m <= |t|
    requires forall k :: 0 <= k < m ==> !IsUpper(t[k])
    ensures SentinelCased(t[m..])
    decreases m
  {
    if m > 0 {
      assert !IsUpper(t[0]);
      assert t[1..][m - 1..] == t[m..];
      SentinelCasedSkip(t[1..], m - 1);
    } else {
      assert t[0..] == t;
    }
  }

  /** How a sentinel-cased text can begin: with a whole sentinel or with one
      character that is not a capital. */
  predicate SentinelHead(h: string) {
    h == "URL" || h == "NUMBERS" || (|h| == 1 && !IsUpper(h[0]))
  }

  /** A sentinel holds no whitespace. */
  lemma SentinelHeadUnbroken(h: string)
    requires SentinelHead(h)
    ensures forall i :: 0 < i < |h| ==> !IsSpace(h[i])
  {
  }

  /** The first piece of a non-empty sentinel-cased text. */
  lemma SentinelCasedHead(s: string) returns (k: nat)
    requires SentinelCased(s) && s != []
    ensures 1 <= k <= |s| && SentinelHead(s[..k]) && SentinelCased(s[k..])
  {
    if |s| >= 3 && s[..3] == "URL" && SentinelCased(s[3..]) {
      k := 3;
    } else if |s| >= 7 && s[..7] == "NUMBERS" && SentinelCased(s[7..]) {
      k := 7;
    } else {
      k := 1;
    }
  }

  lemma SentinelCasedPrefixed(h: string, r: string)
    requires SentinelHead(h) && SentinelCased(r)
    ensures SentinelCased(h + r)
  {
    assert (h + r)[..|h|] == h && (h + r)[|h|..] == r;
  }

  /** main.py:78 on lowercased text: the only capitals it writes are those of
      `URL`. */
  lemma {:induction false} UrlsSentinelCased(s: string)
    requires NoUpper(s)
    ensures SentinelCased(ReplaceUrls(s))
    decreases |s|
  {
    if s != [] {
      var k := UrlsStep(s);
      assert NoUpper(s[k..]);
      UrlsSentinelCased(s[k..]);
      if UrlLength(s) > 0 {
        SentinelCasedPrefixed("URL", ReplaceUrls(s[k..]));
      } else {
        SentinelCasedPrefixed([s[0]], ReplaceUrls(s[k..]));
      }
    }
  }

  /** main.py:79 keeps the text sentinel-cased: a digit run becomes
      `NUMBERS`, and the sentinel `URL` holds no digit. */
  lemma {:induction false} NumbersSentinelCased(s: string)
    requires SentinelCased(s)
    ensures SentinelCased(ReplaceNumbers(s))
    decreases |s|
  {
    if s != [] {
      if IsDigit(s[0]) {
        var n := NumbersStep(s);
        SentinelCasedSkip(s, n);
        NumbersSentinelCased(s[n..]);
        SentinelCasedPrefixed("NUMBERS", ReplaceNumbers(s[n..]));
      } else {
        var k := SentinelCasedHead(s);
        var h := s[..k];
        NumbersSentinelCased(s[k..]);
        TakeDrop(s, k);
        NumbersOfHead(h, s[k..]);
        SentinelCasedPrefixed(h, ReplaceNumbers(s[k..]));
      }
    }
  }

  /** A sentinel, or one character that is not a digit, passes through the
      digit stage unchanged. */
  lemma NumbersOfHead(h: string, r: string)
    requires SentinelHead(h) && !IsDigit(h[0])
    ensures ReplaceNumbers(h + r) == h + ReplaceNumbers(r)
  {
    assert NoDigit(h);
    NumbersSplit(h, r);
    NumbersKeepDigitFree(h);
  }

  /** main.py:80 keeps the text sentinel-cased: sentinels are letters and
      stay, everything else that is not a letter becomes a space. */
  lemma {:induction false} KeepLettersSentinelCased(s: string)
    requires SentinelCased(s)
    ensures SentinelCased(KeepLetters(s))
    decreases |s|
  {
    var r := KeepLetters(s);
    if s != [] {
      if |s| >= 3 && s[..3] == "URL" && SentinelCased(s[3..]) {
        KeepLettersSentinelCased(s[3..]);
        KeepLettersSuffix(s, 3);
        assert r[..3] == "URL";
      } else if |s| >= 7 && s[..7] == "NUMBERS" && SentinelCased(s[7..]) {
        KeepLettersSentinelCased(s[7..]);
        KeepLettersSuffix(s, 7);
        assert r[..7] == "NUMBERS";
      } else {
        KeepLettersSentinelCased(s[1..]);
        KeepLettersSuffix(s, 1);
      }
    }
  }

  /** A sentinel never spans whitespace, so cutting the text at whitespace
      (or at its end) leaves both parts sentinel-cased. */
  lemma {:induction false} SentinelCasedCut(s: string, n: nat)
    requires SentinelCased(s) && n <= |s|
    requires n == |s| || IsSpace(s[n])
    ensures SentinelCased(s[..n]) && SentinelCased(s[n..])
    decreases |s|
  {
    if n == 0 {
      assert s[0..] == s;
    } else {
      var k := SentinelCasedHead(s);
      var h := s[..k];
      assert k <= n by {
        SentinelHeadUnbroken(h);
      }
      SliceOfSlice(s, k, n);
      SentinelCasedCut(s[k..], n - k);
      SentinelCasedPrefixed(h, s[k..][..n - k]);
    }
  }

  /** Every word of sentinel-cased text is sentinel-cased. */
  lemma {:induction false} WordsSentinelCased(s: string)
    requires SentinelCased(s)
    ensures forall w :: w in Words(s) ==> SentinelCased(w)
    decreases |s|
  {
    if s != [] {
      if IsSpace(s[0]) {
        var m := Span(s, IsSpace);
        SentinelCasedSkip(s, m);
        WordsSentinelCased(s[m..]);
      } else {
        var n := Span(s, IsNonSpace);
        SentinelCasedCut(s, n);
        WordsSentinelCased(s[n..]);
        assert Words(s) == [s[..n]] + Words(s[n..]);
      }
    }
  }
}
