/** `data_cleaning` (main.py:73-89): the normaliser that turns raw email text
    into the space-joined token string the classifier is fed.

    The three library objects it uses are parameters: `demojize` stands for
    `emoji.demojize`, `stem` for `PorterStemmer().stem` and `stopWords` for
    the NLTK English stopword set. Nothing is assumed about them except where
    a lemma says so in its `requires`. */
module Cleaning {
  import opened Chars
  import opened Tokens
  import opened Letters
  import opened Tags
  import opened Urls
  import opened Numbers
  import opened Spacing
  import opened Sentinels

  /** Only ASCII letters and plain spaces. */
  predicate LettersAndSpaces(s: string) {
    forall c :: c in s ==> IsLetter(c) || c == ' '
  }

  /** Lines 76-80 leave letters and spaces, and line 81 adds only spaces. */
  lemma TidyKeepsLetters(s: string)
    requires LettersAndSpaces(s)
    ensures LettersAndSpaces(Tidy(s))
    ensures forall w :: w in Words(s) ==> LettersOnly(w)
  {
    forall w | w in Words(s) ensures LettersOnly(w) {
      assert forall i :: 0 <= i < |w| ==> w[i] in w && !IsSpace(w[i]);
    }
  }

  /** Lines 76-81 applied to the demojized text. */
  function Preprocess(t: string): (r: string)
    ensures SingleSpaced(r) && LettersAndSpaces(r)
  {
    var k := KeepLetters(ReplaceNumbers(ReplaceUrls(StripTags(Lower(t)))));
    assert forall c :: c in k ==> IsLetter(c) || c == ' ' by {
      assert forall i :: 0 <= i < |k| ==> IsLetter(k[i]) || k[i] == ' ';
    }
    TidySingleSpaced(k);
    TidyKeepsLetters(k);
    Tidy(k)
  }

  /** Lines 84-86 split text into tokens and decide on each of them: the
      tokens that are not stopwords, in their order, defined from the end
      because the loop appends. */
  function NonStop(words: seq<string>, stops: set<string>): (kept: seq<string>)
    ensures |kept| <= |words|
    decreases |words|
  {
    if words == [] then []
    else
      var init, w := words[..|words| - 1], words[|words| - 1];
      var kept := NonStop(init, stops);
      if w in stops then kept else kept + [w]
  }

  /** Filtering keeps every occurrence of every token that is not a stopword
      and drops every occurrence of every stopword. */
  lemma {:induction false} NonStopCounts(words: seq<string>, stops: set<string>)
    ensures forall w :: multiset(NonStop(words, stops))[w] == if w in stops then 0 else multiset(words)[w]
    ensures forall w :: w in NonStop(words, stops) <==> w in words && w !in stops
    decreases |words|
  {
    if words != [] {
      var init, w := words[..|words| - 1], words[|words| - 1];
      assert words == init + [w];
      NonStopCounts(init, stops);
    }
  }

  /** Filtering a concatenation filters each part, so the kept tokens keep
      their relative order. */
  lemma {:induction false} NonStopAppend(a: seq<string>, b: seq<string>, stops: set<string>)
    ensures NonStop(a + b, stops) == NonStop(a, stops) + NonStop(b, stops)
    decreases |b|
  {
    if b == [] {
      assert a + b == a;
    } else {
      var init, w := b[..|b| - 1], b[|b| - 1];
      assert (a + b)[..|a + b| - 1] == a + init;
      assert (a + b)[|a + b| - 1] == w;
      NonStopAppend(a, init, stops);
    }
  }

  /** `stem` applied to every token. */
  function StemAll(stem: string -> string, ws: seq<string>): (r: seq<string>)
    ensures |r| == |ws|
  {
    seq(|ws|, i requires 0 <= i < |ws| => stem(ws[i]))
  }

  /** The loop at main.py:83-87: skips stopwords and appends the stem of every
      other token to `filtered`. `calls` records, in order, every token that
      is handed to `stem`. */
  method FilterAndStem(words: seq<string>, stopWords: set<string>, stem: string -> string)
    returns (filtered: seq<string>, ghost calls: seq<string>)
    ensures filtered == StemAll(stem, NonStop(words, stopWords))
    ensures calls == NonStop(words, stopWords)
    ensures forall w :: w in calls ==> w !in stopWords
  {
    filtered := [];
    calls := [];
    for i := 0 to |words|
      invariant calls == NonStop(words[..i], stopWords)
      invariant |filtered| == |calls| && forall k :: 0 <= k < |calls| ==> filtered[k] == stem(calls[k])
    {
      var word := words[i];
      assert words[..i + 1] == words[..i] + [word];
      assert words[..i + 1][..i] == words[..i];
      if word in stopWords {
        continue;
      }
      calls := calls + [word];
      filtered := filtered + [stem(word)];
    }
    assert words[..|words|] == words;
    NonStopCounts(words, stopWords);
  }

  /** What `data_cleaning` returns, as a function of its input. */
  function Normalize(text: string, demojize: string -> string, stem: string -> string, stopWords: set<string>): (out: string)
  {
    Join(StemAll(stem, NonStop(Split(Preprocess(demojize(text))), stopWords)))
  }

  /** main.py:73-89, stage by stage. */
  method DataCleaning(text: string, demojize: string -> string, stem: string -> string, stopWords: set<string>)
    returns (cleaned: string)
    ensures cleaned == Normalize(text, demojize, stem, stopWords)
  {
    var t := demojize(text);
    t := Lower(t);
    t := StripTags(t);
    t := ReplaceUrls(t);
    t := ReplaceNumbers(t);
    t := KeepLetters(t);
    t := Tidy(t);
    var filtered, calls := FilterAndStem(Split(t), stopWords, stem);
    cleaned := Join(filtered);
  }

  /** The tokens split off at main.py:84 are non-empty words of letters; only
      an empty cleaned text gives a token that is empty, and then it is the
      only one. */
  lemma TokensAreWords(t: string)
    ensures var ts := Split(Preprocess(t));
      && (Preprocess(t) == [] <==> ts == [""])
      && (Preprocess(t) != [] ==> forall w :: w in ts ==> w != [] && LettersOnly(w))
  {
    var k := KeepLetters(ReplaceNumbers(ReplaceUrls(StripTags(Lower(t)))));
    assert forall c :: c in k ==> IsLetter(c) || c == ' ' by {
      assert forall i :: 0 <= i < |k| ==> IsLetter(k[i]) || k[i] == ' ';
    }
    TidyKeepsLetters(k);
    TidySplit(k);
    TidyIsJoinedWords(k);
    if Words(k) != [] {
      JoinEnds(Words(k));
    }
  }

  /** What the output claims below need of the stemmer: it maps a word of
      letters to a word of letters, ... */
  ghost predicate StemKeepsLetters(stem: string -> string) {
    forall w :: LettersOnly(w) ==> LettersOnly(stem(w))
  }

  /** ... and never maps a non-empty word to the empty one. */
  ghost predicate StemNonEmpty(stem: string -> string) {
    forall w :: w != [] && LettersOnly(w) ==> stem(w) != []
  }

  /** Words of letters joined by spaces hold only letters and spaces. */
  lemma {:induction false} JoinLetters(ws: seq<string>)
    requires forall w :: w in ws ==> LettersOnly(w)
    ensures LettersAndSpaces(Join(ws))
    decreases |ws|
  {
    if ws != [] {
      var w := ws[0];
      assert w in ws;
      assert forall c :: c in w ==> IsLetter(c) by {
        assert forall i :: 0 <= i < |w| ==> IsLetter(w[i]);
      }
      if |ws| > 1 {
        assert forall v :: v in ws[1..] ==> v in ws;
        JoinLetters(ws[1..]);
        assert Join(ws) == w + " " + Join(ws[1..]);
      }
    }
  }

  /** The tokens kept by the loop are tokens of the cleaned text. */
  lemma KeptAreTokens(t: string, stopWords: set<string>)
    ensures forall w :: w in NonStop(Split(Preprocess(t)), stopWords) ==> w in Split(Preprocess(t))
  {
    NonStopCounts(Split(Preprocess(t)), stopWords);
  }

  /** The tokens kept by the loop are words of letters, non-empty unless
      the cleaned text was empty. */
  lemma KeptAreWords(t: string, stopWords: set<string>)
    ensures var kept := NonStop(Split(Preprocess(t)), stopWords);
      && (forall w :: w in kept ==> LettersOnly(w))
      && (Preprocess(t) != [] ==> forall w :: w in kept ==> w != [])
  {
    var kept := NonStop(Split(Preprocess(t)), stopWords);
    TokensAreWords(t);
    KeptAreTokens(t, stopWords);
    if Preprocess(t) == [] {
      assert forall w :: w in kept ==> w == "";
    }
  }

  /** Under the stemmer assumptions, stemming words of letters gives words of
      letters, and non-empty words stay non-empty. */
  lemma StemAllLetters(stem: string -> string, ws: seq<string>)
    requires StemKeepsLetters(stem)
    requires forall w :: w in ws ==> LettersOnly(w)
    ensures forall v :: v in StemAll(stem, ws) ==> LettersOnly(v)
    ensures StemNonEmpty(stem) && (forall w :: w in ws ==> w != []) ==> AreWords(StemAll(stem, ws))
  {
    var stems := StemAll(stem, ws);
    forall v | v in stems
      ensures LettersOnly(v)
      ensures StemNonEmpty(stem) && (forall w :: w in ws ==> w != []) ==> v != [] && NoSpace(v)
    {
      var i :| 0 <= i < |stems| && stems[i] == v;
      assert ws[i] in ws;
      assert forall k :: 0 <= k < |v| ==> IsLetter(v[k]);
    }
  }

  /** Under the stemmer assumptions, the stems of the kept tokens are words
      of letters, non-empty unless the cleaned text was empty. */
  lemma StemsOfKept(t: string, stem: string -> string, stopWords: set<string>)
    requires StemKeepsLetters(stem)
    ensures var stems := StemAll(stem, NonStop(Split(Preprocess(t)), stopWords));
      && (forall v :: v in stems ==> LettersOnly(v))
      && (StemNonEmpty(stem) && Preprocess(t) != [] ==> AreWords(stems))
  {
    KeptAreWords(t, stopWords);
    StemAllLetters(stem, NonStop(Split(Preprocess(t)), stopWords));
  }

  /** The output of main.py:89, provided the stemmer maps non-empty words of
      letters to non-empty words of letters: only letters and single spaces. */
  lemma OutputShape(text: string, demojize: string -> string, stem: string -> string, stopWords: set<string>)
    requires StemKeepsLetters(stem) && StemNonEmpty(stem)
    ensures var out := Normalize(text, demojize, stem, stopWords);
      SingleSpaced(out) && LettersAndSpaces(out)
  {
    var t := demojize(text);
    var stems := StemAll(stem, NonStop(Split(Preprocess(t)), stopWords));
    StemsOfKept(t, stem, stopWords);
    JoinLetters(stems);
    if Preprocess(t) != [] {
      JoinSingleSpaced(stems);
    } else {
      var out := Join(stems);
      assert forall i :: 0 <= i < |out| ==> out[i] in out;
    }
  }

  /** Splitting the output on spaces gives back exactly the stems of the kept
      tokens, in order, one per token that is not a stopword, provided the
      stemmer keeps words of letters words of letters. */
  lemma OutputTokens(text: string, demojize: string -> string, stem: string -> string, stopWords: set<string>)
    requires StemKeepsLetters(stem)
    ensures var kept := NonStop(Split(Preprocess(demojize(text))), stopWords);
      kept != [] ==> Split(Normalize(text, demojize, stem, stopWords)) == StemAll(stem, kept)
  {
    var t := demojize(text);
    var kept := NonStop(Split(Preprocess(t)), stopWords);
    var stems := StemAll(stem, kept);
    StemsOfKept(t, stem, stopWords);
    forall v | v in stems ensures ' ' !in v {
      assert forall i :: 0 <= i < |v| ==> IsLetter(v[i]);
    }
    if kept != [] {
      SplitJoin(stems);
    }
  }

  /** Neither an ASCII letter nor a digit anywhere: punctuation, symbols and
      whitespace only. */
  predicate NoLetterOrDigit(s: string) {
    forall i :: 0 <= i < |s| ==> !IsLetter(s[i]) && !IsDigit(s[i])
  }

  /** Text with no letter and no digit after demojizing cleans to nothing:
      lowercasing and the URL and digit stages leave it as it is, tags become
      spaces, and main.py:80 turns every character that is left into a space,
      which main.py:81 removes. */
  lemma BlankPreprocess(t: string)
    requires NoLetterOrDigit(t)
    ensures Preprocess(t) == []
  {
    assert Lower(t) == t;
    var a := StripTags(t);
    StripTagsNoLetterOrDigit(t);
    assert NoUrl(a) by {
      forall i, j | 0 <= i <= j <= |a| ensures !IsUrl(a[i..j]) {
        assert i < j ==> a[i..j][0] == a[i];
      }
    }
    UrlsKeepUrlFree(a);
    NumbersKeepDigitFree(a);
    var k := KeepLetters(a);
    WordsOfBlank(k);
    TidyIsJoinedWords(k);
  }

  /** Tag removal writes only spaces and copies the rest, so it adds no
      letter and no digit. */
  lemma StripTagsNoLetterOrDigit(t: string)
    requires NoLetterOrDigit(t)
    ensures NoLetterOrDigit(StripTags(t))
  {
    var a := StripTags(t);
    StripTagsChars(t);
    forall i | 0 <= i < |a| ensures !IsLetter(a[i]) && !IsDigit(a[i]) {
      assert a[i] in a;
      if a[i] != ' ' {
        var j :| 0 <= j < |t| && t[j] == a[i];
      }
    }
  }

  lemma {:induction false} WordsOfBlank(s: string)
    requires AllSpace(s)
    ensures Words(s) == []
  {
    if s != [] {
      SpanIs(s, IsSpace, |s|);
      assert s[|s|..] == [];
    }
  }

  /** When the cleaned text is empty, `split(" ")` still yields one empty
      token: unless the empty string is a stopword, it is stemmed and its stem
      is the whole output. */
  lemma BlankOutput(text: string, demojize: string -> string, stem: string -> string, stopWords: set<string>)
    requires Preprocess(demojize(text)) == []
    ensures Normalize(text, demojize, stem, stopWords) == if "" in stopWords then "" else stem("")
  {
    SpanIs([], IsNotBlank, 0);
    assert Split([]) == [""];
    assert NonStop([""], stopWords) == NonStop([], stopWords) + (if "" in stopWords then [] else [""]);
  }

  /** What the claims about blank input need of `emoji.demojize`: text of
      whitespace only holds no emoji, and is returned as it is. */
  ghost predicate DemojizeKeepsBlank(demojize: string -> string) {
    forall t :: AllSpace(t) ==> demojize(t) == t
  }

  /** Whitespace-only input, which the request guard at main.py:117 lets
      through because it rejects only the empty string, gives `stem("")`, or
      `""` when the empty string is a stopword. */
  lemma BlankInputOutput(text: string, demojize: string -> string, stem: string -> string, stopWords: set<string>)
    requires DemojizeKeepsBlank(demojize) && AllSpace(text)
    ensures Normalize(text, demojize, stem, stopWords) == if "" in stopWords then "" else stem("")
  {
    assert demojize(text) == text;
    BlankPreprocess(text);
    BlankOutput(text, demojize, stem, stopWords);
  }

  /** When every token of the cleaned text is a stopword, nothing is stemmed
      and the output is empty. */
  lemma StopwordsOnlyOutput(text: string, demojize: string -> string, stem: string -> string, stopWords: set<string>)
    requires forall w :: w in Split(Preprocess(demojize(text))) ==> w in stopWords
    ensures Normalize(text, demojize, stem, stopWords) == ""
  {
    var tokens := Split(Preprocess(demojize(text)));
    NonStopCounts(tokens, stopWords);
    var kept := NonStop(tokens, stopWords);
    assert kept == [];
  }

  /** Text after lowercasing and tag removal has no capitals. */
  lemma StripTagsNoUpper(s: string)
    requires NoUpper(s)
    ensures NoUpper(StripTags(s))
  {
    var r := StripTags(s);
    StripTagsChars(s);
    forall i | 0 <= i < |r| ensures !IsUpper(r[i]) {
      assert r[i] in r;
      if r[i] != ' ' {
        var j :| 0 <= j < |s| && s[j] == r[i];
      }
    }
  }

  /** Before stemming, every capital in a token belongs to a whole `URL` or
      `NUMBERS` sentinel: the sentinels are written after lowercasing. */
  lemma TokensSentinelCased(t: string)
    ensures forall w :: w in Split(Preprocess(t)) ==> SentinelCased(w)
  {
    var l := Lower(t);
    StripTagsNoUpper(l);
    var u := ReplaceUrls(StripTags(l));
    UrlsSentinelCased(StripTags(l));
    NumbersSentinelCased(u);
    var k := KeepLetters(ReplaceNumbers(u));
    KeepLettersSentinelCased(ReplaceNumbers(u));
    TidySplit(k);
    WordsSentinelCased(k);
  }

  /** The URL stage runs before the digit stage, so digits inside a URL never
      become `NUMBERS`: in a run of non-whitespace whose first match starts
      at `p`, only digits before `p` are replaced. */
  lemma DigitsInsideUrlVanish(w: string, p: nat)
    requires NoSpace(w)
    requires p <= |w| && IsUrl(w[p..])
    requires forall i :: 0 <= i < p ==> !IsUrl(w[i..])
    ensures ReplaceNumbers(ReplaceUrls(w)) == ReplaceNumbers(w[..p]) + "URL"
  {
    UrlsInWord(w, p);
    NumbersBeforeSentinel(w[..p]);
  }

  lemma NumbersBeforeSentinel(x: string)
    ensures ReplaceNumbers(x + "URL") == ReplaceNumbers(x) + "URL"
  {
    NumbersSplit(x, "URL");
    NumbersKeepDigitFree("URL");
  }

  /** Punctuation is replaced by a space at main.py:80, not deleted, so a
      word with an apostrophe in it ("don't") reaches main.py:84 as two
      tokens. */
  lemma ApostropheSplitsWord(a: string, b: string)
    requires a != [] && b != [] && LettersOnly(a) && LettersOnly(b)
    ensures Split(Tidy(KeepLetters(a + "'" + b))) == [a, b]
  {
    var s := a + " " + b;
    assert KeepLetters(a + "'" + b) == s;
    assert NoSpace(a) && NoSpace(b);
    WordsOfTwo(a, b);
    TidyIsJoinedWords(s);
    assert Join([a, b]) == s;
    assert ' ' !in a && ' ' !in b by {
      assert forall i :: 0 <= i < |a| ==> a[i] != ' ';
      assert forall i :: 0 <= i < |b| ==> b[i] != ' ';
    }
    SplitJoin([a, b]);
  }

  lemma WordsOfTwo(a: string, b: string)
    requires a != [] && b != [] && NoSpace(a) && NoSpace(b)
    ensures Words(a + " " + b) == [a, b]
  {
    ConcatAssoc(a, " ", b);
    WordsAfterWord(a, " " + b);
    WordsAfterGap(" ", b);
    WordsAfterWord(b, []);
    assert b + [] == b;
  }
}
