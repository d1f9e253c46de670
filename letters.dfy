/** The two character-by-character stages of the normaliser: lowercasing
    (main.py:76) and turning every character that is not an ASCII letter into
    a space (main.py:80). */
module Letters {
  import opened Chars

  /** `text.lower()`, on ASCII capitals. */
  function Lower(s: string): (r: string)
    ensures |r| == |s| && NoUpper(r)
    ensures forall i :: 0 <= i < |s| && IsUpper(s[i]) ==> IsLower(r[i]) && r[i] as int - s[i] as int == 'a' as int - 'A' as int
    ensures forall i :: 0 <= i < |s| && !IsUpper(s[i]) ==> r[i] == s[i]
  {
    seq(|s|, i requires 0 <= i < |s| => if IsUpper(s[i]) then (s[i] as int + 32) as char else s[i])
  }

  /** `re.sub(r'[^a-zA-Z]', ' ', text)`: every letter stays where it is and
      every other character is replaced by a space, never deleted, so the
      text keeps its length and "don't" becomes "don t". */
  function KeepLetters(s: string): (r: string)
    ensures |r| == |s|
    ensures forall i :: 0 <= i < |r| ==> IsLetter(r[i]) || r[i] == ' '
    ensures forall i :: 0 <= i < |s| && IsLetter(s[i]) ==> r[i] == s[i]
    ensures forall i :: 0 <= i < |s| && !IsLetter(s[i]) ==> r[i] == ' '
  {
    seq(|s|, i requires 0 <= i < |s| => if IsLetter(s[i]) then s[i] else ' ')
  }

  /** Neither stage looks beyond the character at hand, so both commute with
      taking a suffix. */
  lemma KeepLettersSuffix(s: string, k: nat)
    requires k <= |s|
    ensures KeepLetters(s[k..]) == KeepLetters(s)[k..]
  {
  }
}
