# Email text normaliser of the spam classifier, in Dafny

The spam classifier feeds every email through `data_cleaning`
(main.py:73-89) before vectorising it. That function rewrites the text in a
fixed order of stages, and then tokenises it:

1. `emoji.demojize`
2. lowercasing
3. `<...>` tags become a space
4. `http...` and `www...` runs become `URL`
5. digit runs become `NUMBERS`
6. every character that is not an ASCII letter becomes a space
7. whitespace runs collapse to one space and the ends are trimmed
8. the text is split on single spaces, stopwords are dropped, the rest is
   stemmed, and the stems are joined with single spaces

This project models those stages and proves what each one leaves behind.
The stages themselves are the functions `Letters.Lower` (line 76),
`Tags.StripTags` (line 77), `Urls.ReplaceUrls` (line 78),
`Numbers.ReplaceNumbers` (line 79), `Letters.KeepLetters` (line 80),
`Spacing.Tidy` (line 81, built from `Spacing.Collapse` and `Spacing.Strip`),
`Tokens.Split` (line 84) and `Tokens.Join` (line 89); `Cleaning.Normalize`
composes them with the stopword filter and the stemmer. The lemmas in the
table below are what is proved about them.

- `chars.dfy` (module `Chars`): character classes and `Span`, the greedy
  longest prefix that the regular-expression stages are built on.
- `letters.dfy` (module `Letters`): the character-by-character stages 2 and 6.
- `tags.dfy`, `urls.dfy`, `numbers.dfy`: stages 3, 4 and 5. Each is a
  left-to-right scanning function, with lemmas saying what a match is, that
  no match survives, that text without a match is untouched, and how the
  stage splits over concatenation.
- `spacing.dfy` (module `Spacing`): stage 7. It is proved equal to its
  reference reading, Python's `" ".join(text.split())`.
- `tokens.dfy` (module `Tokens`): `split(" ")` and `" ".join`, and their
  round trips.
- `sentinels.dfy` (module `Sentinels`): the inserted upper-case sentinels
  are the only capitals left before stemming.
- `cleaning.dfy` (module `Cleaning`):
  - `Preprocess`, lines 76-81 composed;
  - the stopword and stem loop, as a method with loop invariants;
  - `DataCleaning`, the whole function stage by stage, proved equal to the
    specification function `Normalize`;
  - the end-to-end properties.

`emoji.demojize`, `PorterStemmer().stem` (main.py:25) and the English
stopword set (main.py:26) are parameters of `DataCleaning`. The first two
are functions, the third a `set<string>`. What some lemmas need of them is
written as three ghost predicates, each named in the `requires` of the lemmas
that use it:

- `StemKeepsLetters`: words of letters stem to words of letters. Required by
  `StemAllLetters`, `StemsOfKept`, `OutputShape` and `OutputTokens`.
- `StemNonEmpty`: a non-empty word of letters never stems to the empty word.
  Required by `OutputShape`.
- `DemojizeKeepsBlank`: whitespace-only text holds no emoji and is returned
  as it is. Required by `BlankInputOutput`.

The guard at main.py:117 (`not email_input`) turns away only the empty
string, so whitespace-only text does reach `data_cleaning`. `BlankPreprocess`
states that any text without letters or digits after demojizing cleans to
nothing; `BlankOutput` that `split(" ")` then yields one empty token, which is
stemmed unless `""` is a stopword; and `BlankInputOutput` puts the two
together for whitespace-only input, under `DemojizeKeepsBlank`.

## Model

| member | source | states |
|---|---|---|
| Chars.Span | main.py:77-81 | the greedy class match: every character of the prefix is in the class, and the next one is not |
| Letters.Lower | main.py:76 | same length; every ASCII capital is replaced by its small letter and every other character is kept, so no capital remains |
| Letters.KeepLetters | main.py:80 | same length; letters stay in place and every other character becomes a space, never deleted; the result holds only letters and spaces |
| Letters.KeepLettersSuffix | main.py:80 | the stage works character by character, so it commutes with dropping a prefix |
| Tags.TagLengthMeaning | main.py:77 | at a position, what the scan matches is a `<[^>]+>` tag, and it is the only prefix there that is one, since the tag ends at the first `>` |
| Tags.StripTagsChars | main.py:77 | apart from the spaces it writes, the stage only copies input characters |
| Tags.StripTagsHead | main.py:77 | the output never starts with a tag |
| Tags.StripTagsLeavesNoTag | main.py:77 | no substring of the output is a tag |
| Tags.StripTagsKeepTagFree | main.py:77 | text with no tag in it is returned unchanged |
| Tags.StripTagsIdempotent | main.py:77 | stripping tags twice is stripping them once |
| Tags.StripTagsOfTag | main.py:77 | a tag on its own becomes exactly one space |
| Tags.EmptyBracketsKept | main.py:77 | `<>` has empty content, so it is not a tag: it is copied and the scan goes on after it |
| Tags.TagLengthOfConcat | main.py:77 | a tag found at the start of a text in which every `<` is closed does not depend on what follows |
| Tags.StripTagsSplit | main.py:77 | after a prefix in which every `<` is closed, the stage works on the two parts separately |
| Tags.StripTagsReplacesTag | main.py:77 | a tag after tag-free text becomes one space; the characters before it are unchanged, and the rest is treated on its own |
| Urls.UrlLengthMeaning | main.py:78 | what the scan matches is an `http\S+` or `www\S+` match that runs to the next whitespace or the end; when it matches nothing, no match starts there |
| Urls.UrlsPrefix | main.py:78 | up to the first `U` of the output, the output repeats the input, with whitespace in the same places |
| Urls.UrlsHeadNoUrl | main.py:78 | when no match starts at the first input character, none starts at the first output character |
| Urls.UrlsLeaveNoUrl | main.py:78 | no substring of the output is a match |
| Urls.UrlsKeepUrlFree | main.py:78 | text with no match in it is returned unchanged |
| Urls.UrlsSplit | main.py:78 | matches never cross whitespace, so the stage works on the two sides of any cut at whitespace separately |
| Urls.UrlsInWord | main.py:78 | in a run of non-whitespace whose first match starts at `p`, the characters before `p` are kept and everything from `p` on becomes one `URL` |
| Urls.UrlsWordWithoutUrl | main.py:78 | a run of non-whitespace with no match in it is kept as it is |
| Numbers.NumbersLeaveNoDigit | main.py:79 | no digit is left in the output |
| Numbers.NumbersKeepDigitFree | main.py:79 | text without digits is returned unchanged |
| Numbers.NumbersOfRun | main.py:79 | a digit run on its own becomes exactly one `NUMBERS` |
| Numbers.NumbersSplit | main.py:79 | the stage works on the two parts of any cut that does not fall inside a digit run |
| Numbers.NumbersReplaceEachRun | main.py:79 | each maximal digit run becomes exactly one `NUMBERS`, and the text around it is treated as if the run were not there |
| Spacing.Collapse | main.py:81 | `re.sub(r'\s+', ' ', ...)` never lengthens the text and writes no character other than a space that is not in its input |
| Spacing.TrimEnd | main.py:81 | the result is a prefix of the input, only whitespace follows it, and it does not end in whitespace |
| Spacing.Strip | main.py:81 | `strip()` returns the middle of the input, with only whitespace cut off on both sides, and starts and ends with a non-space character |
| Spacing.Words | main.py:81 | `split()` with no argument yields non-empty, whitespace-free words made of input characters |
| Spacing.CollapseFromWord | main.py:81 | collapsing text that starts with a word gives its words joined by single spaces, plus one space if the text ended in whitespace |
| Spacing.WordsAfterWord | main.py:81 | a word followed by whitespace, or by nothing, is the first word |
| Spacing.WordsAfterGap | main.py:81 | leading whitespace adds no word |
| Spacing.TrimEndPadded | main.py:81 | trimming the end removes exactly the trailing whitespace |
| Spacing.StripPadded | main.py:81 | stripping removes exactly the padding around text that starts and ends with a non-space character |
| Spacing.JoinSingleSpaced | main.py:81 | words joined by single spaces have no edge space and no two whitespace characters in a row |
| Spacing.TidyIsJoinedWords | main.py:81 | `re.sub(r'\s+', ' ', text).strip()` equals `" ".join(text.split())` for every text |
| Spacing.TidySingleSpaced | main.py:81 | after line 81, every whitespace character is a plain space with a non-space character on each side: no edge spaces and no doubled spaces |
| Spacing.TidySplit | main.py:81-84 | splitting the tidied text on single spaces gives its words; only text with no words gives the single empty token |
| Tokens.Join | main.py:89 | joining no tokens gives the empty string, and one token gives the token itself |
| Tokens.Split | main.py:84 | `split(" ")` yields at least one piece, and no piece holds a space |
| Tokens.SplitCount | main.py:84 | there is always one piece more than there are spaces |
| Tokens.JoinSplit | main.py:84-89 | joining what `split(" ")` returns gives back the text |
| Tokens.SplitJoin | main.py:84-89 | splitting a join of a non-empty list of space-free tokens gives back those tokens |
| Sentinels.NoUpperSentinelCased | main.py:76 | lowercased text is sentinel-cased: every capital belongs to a whole `URL` or `NUMBERS` |
| Sentinels.UrlsSentinelCased | main.py:78 | on lowercased text, the URL stage writes no capital other than those of `URL` |
| Sentinels.NumbersSentinelCased | main.py:79 | the digit stage keeps the text sentinel-cased |
| Sentinels.KeepLettersSentinelCased | main.py:80 | the letter stage keeps the text sentinel-cased |
| Sentinels.SentinelCasedCut | main.py:81-84 | no sentinel spans whitespace, so cutting at whitespace leaves both parts sentinel-cased |
| Sentinels.WordsSentinelCased | main.py:81-84 | every word of sentinel-cased text is sentinel-cased |
| Cleaning.Preprocess | main.py:76-81 | the text after line 81 is single-spaced and holds only letters and spaces |
| Cleaning.TidyKeepsLetters | main.py:81 | the whitespace stage keeps text of letters and spaces that way, and its words are letters only |
| Cleaning.TokensAreWords | main.py:81-84 | the tokens of line 84 are non-empty words of letters, unless the cleaned text is empty; exactly then, the only token is `""` |
| Cleaning.TokensSentinelCased | main.py:76-84 | before stemming, every capital in every token belongs to a whole `URL` or `NUMBERS` |
| Cleaning.NonStop | main.py:84-86 | the filter never lengthens the token list |
| Cleaning.NonStopCounts | main.py:84-86 | every occurrence of a non-stopword is kept, every stopword is dropped, and a token is kept if and only if it is a token and not a stopword |
| Cleaning.NonStopAppend | main.py:84-86 | the filter distributes over concatenation, so kept tokens keep their order |
| Cleaning.StemAll | main.py:87 | one stem per token |
| Cleaning.FilterAndStem | main.py:83-87 | `filtered` is `stem` applied to each non-stopword token, in order; the tokens handed to `stem` are exactly those, and never a stopword |
| Cleaning.DataCleaning | main.py:73-89 | the stage-by-stage method returns `Normalize` of its input |
| Cleaning.KeptAreWords | main.py:84-86 | the kept tokens are letters only, and non-empty unless the cleaned text is empty |
| Cleaning.StemAllLetters | main.py:87 | under the stemmer assumptions, stems of words of letters are words of letters |
| Cleaning.StemsOfKept | main.py:84-87 | under the stemmer assumptions, the stems of the kept tokens are words of letters |
| Cleaning.OutputShape | main.py:89 | if the stemmer keeps non-empty words of letters non-empty words of letters, the output holds only letters and single spaces, with no edge or doubled spaces |
| Cleaning.OutputTokens | main.py:83-89 | when some token is kept, splitting the output on spaces gives exactly the stems of the kept tokens, in order, one per non-stopword token |
| Cleaning.BlankPreprocess | main.py:76-81 | text with no ASCII letter and no digit after demojizing (punctuation, symbols and whitespace) cleans to the empty string |
| Cleaning.StripTagsNoLetterOrDigit | main.py:77 | tag removal adds no letter and no digit |
| Cleaning.BlankOutput | main.py:83-89 | when the cleaned text is empty, the output is `stem("")`, or `""` if the empty string is a stopword |
| Cleaning.BlankInputOutput | main.py:73-89 | if `demojize` returns whitespace-only text unchanged, whitespace-only input, which main.py:117 lets through, gives `stem("")`, or `""` if the empty string is a stopword |
| Cleaning.StopwordsOnlyOutput | main.py:83-89 | when every token of the cleaned text is a stopword, the output is the empty string |
| Cleaning.DigitsInsideUrlVanish | main.py:78-79 | URLs are replaced before digits, so digits inside a URL never become `NUMBERS`; only digits before the match are replaced |
| Cleaning.ApostropheSplitsWord | main.py:80-84 | punctuation becomes a space rather than being deleted, so `a'b` reaches line 84 as the two tokens `a` and `b` ("don't" gives "don" and "t") |

## Left out

- The Streamlit page, its styling, sidebar and widgets (main.py:11-58, main.py:91-112) are user interface only.
- `load_models` (main.py:62-71) loads pickled models from disk behind a caching decorator, which is file I/O.
- The stopword download (main.py:20-23) is network and disk I/O.
- The vectoriser and the classifier (main.py:123-125) are pickled scikit-learn objects whose code is not part of this model.
- The confidence rounding (main.py:126) is floating point.
- `time.sleep` (main.py:121) has no effect on the result.
- The request guard (main.py:115-119) is user-interface branching. It rejects only the empty string; `BlankInputOutput` covers the whitespace-only input it lets through, under the `DemojizeKeepsBlank` condition on `emoji.demojize`.
- `emoji.demojize`, `PorterStemmer().stem` and the contents of the English stopword list are foreign library code. They are uninterpreted parameters, and nothing is claimed about them except the three conditions named above. In particular, normalising twice is not claimed to be normalising once, because that would depend on the stemmer.
- Chars.IsDigit: `\d` is modelled as the ASCII digits 0-9 only, whereas the third-party `regex` module, which main.py:3 imports as `re`, also matches other Unicode decimal digits.
- Chars.IsSpace: `\s` is modelled as the six ASCII whitespace characters (space, tab, line feed, vertical tab, form feed, carriage return), whereas the `regex` module also matches other Unicode whitespace, such as U+0085 and U+00A0.
- Letters.Lower: `str.lower()` is modelled on the ASCII capitals only; other Unicode case mappings, including those that change a string's length, are not modelled.
- Spacing.Strip: `str.strip()` is modelled with the same ASCII whitespace set as `\s`.
- Cleaning.FilterAndStem: `calls`, the record of the tokens handed to `stem`, is ghost; the Python loop keeps no such list.
