/**
  Character classes used by the text cleaner of preprocessor.py, and the
  lowercasing of its tokens.

  Python's `re` matches `\s` against Unicode whitespace; `IsSpace` is that set
  written out. `IsWordChar` is `\w` restricted to ASCII (letters, digits, `_`).
*/
module Chars {

  /** Python's `\s` (and `str.isspace`): the ASCII whitespace table, which
      includes the four separators U+001C..U+001F, and the Unicode spaces. */
  predicate IsSpace(c: char) {
    var n := c as int;
    (9 <= n <= 13) || (0x1C <= n <= 0x20)
    || n == 0x85 || n == 0xA0 || n == 0x1680
    || (0x2000 <= n <= 0x200A) || n == 0x2028 || n == 0x2029
    || n == 0x202F || n == 0x205F || n == 0x3000
  }

  predicate NotSpace(c: char) {
    !IsSpace(c)
  }

  predicate IsUpper(c: char) {
    'A' <= c <= 'Z'
  }

  predicate IsLowerAlnum(c: char) {
    ('a' <= c <= 'z') || ('0' <= c <= '9')
  }

  /** The class `[A-Za-z0-9]`. */
  predicate IsAsciiAlnum(c: char) {
    IsUpper(c) || IsLowerAlnum(c)
  }

  /** The class `\w`, for ASCII characters. */
  predicate IsWordChar(c: char) {
    IsAsciiAlnum(c) || c == '_'
  }

  /** A run of `k` characters satisfying `p`, ended by the end of `s` or by
      a character failing `p`, is the leading run. */
  lemma RunLength(s: seq<char>, p: char -> bool, k: nat)
    requires k <= |s|
    requires forall i | 0 <= i < k :: p(s[i])
    requires k < |s| ==> !p(s[k])
    ensures LeadingRun(s, p) == k
  {
  }

  lemma WordCharNotSpace(c: char)
    ensures IsWordChar(c) ==> !IsSpace(c)
  {
  }

  /** The characters the punctuation step keeps: `[A-Za-z0-9\s]`. */
  predicate KeptByPunctuationStep(c: char) {
    IsAsciiAlnum(c) || IsSpace(c)
  }

  /** Length of the longest prefix of `s` whose characters all satisfy `p`:
      what a greedy `\S+` or `\w+` consumes at the front of `s`. */
  function LeadingRun(s: seq<char>, p: char -> bool): (n: nat)
    ensures n <= |s|
    ensures forall i | 0 <= i < n :: p(s[i])
    ensures n < |s| ==> !p(s[n])
    decreases |s|
  {
    if s == [] || !p(s[0]) then 0 else 1 + LeadingRun(s[1..], p)
  }

  /** `str.lower` on one character, for the ASCII range it is applied to. */
  function LowerChar(c: char): (r: char)
    ensures !IsUpper(r)
    ensures IsUpper(c) ==> 'a' <= r <= 'z' && r as int - 'a' as int == c as int - 'A' as int
    ensures !IsUpper(c) ==> r == c
    ensures IsAsciiAlnum(c) ==> IsLowerAlnum(r)
    ensures IsSpace(r) <==> IsSpace(c)
  {
    if IsUpper(c) then (c as int - 'A' as int + 'a' as int) as char else c
  }

  /** `word.lower()` (preprocessor.py line 28) on a token. */
  function LowerWord(w: seq<char>): (r: seq<char>)
    ensures |r| == |w|
    ensures forall i | 0 <= i < |w| :: r[i] == LowerChar(w[i])
    ensures forall c <- r :: !IsUpper(c)
    ensures (forall c <- w :: !IsUpper(c)) ==> r == w
    ensures (forall c <- w :: IsAsciiAlnum(c)) ==> forall c <- r :: IsLowerAlnum(c)
  {
    seq(|w|, i requires 0 <= i < |w| => LowerChar(w[i]))
  }

  /** Lowercasing is idempotent: a lowercased word has no upper-case letter left. */
  lemma LowerWordIdempotent(w: seq<char>)
    ensures LowerWord(LowerWord(w)) == LowerWord(w)
  {
  }
}
