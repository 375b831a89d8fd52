/**
  The four `re.sub` deletions of preprocessor.py (lines 13, 16, 19 and 22),
  each written as the left-to-right scan that `re.sub` performs: at each
  position try the pattern; on a match delete the (greedy) match and resume
  right after it, otherwise keep the character and move one position on.
*/
module RegexSteps {
  import opened Chars
  import opened Seqs

  predicate StartsWith(s: seq<char>, prefix: seq<char>) {
    |prefix| <= |s| && s[..|prefix|] == prefix
  }

  /** The pattern `<lit>\S+` matches at the front of `s`. Its greedy `\S+`
      then runs to the next whitespace or to the end. */
  predicate LitThenNonSpace(s: seq<char>, lit: seq<char>) {
    StartsWith(s, lit) && |s| > |lit| && !IsSpace(s[|lit|])
  }

  /** `http\S+|www\S+|https\S+` matches at the front of `s` (case-sensitive). */
  predicate UrlAt(s: seq<char>) {
    LitThenNonSpace(s, "http") || LitThenNonSpace(s, "www") || LitThenNonSpace(s, "https")
  }

  /** The third alternative never decides a match: whatever `https\S+`
      matches, `http\S+` matches too, with the same greedy extent. */
  lemma HttpsAlternativeSubsumed(s: seq<char>)
    ensures LitThenNonSpace(s, "https") ==> LitThenNonSpace(s, "http")
  {
    if LitThenNonSpace(s, "https") {
      assert s[..4] == s[..5][..4];
    }
  }

  /** Line 13: every URL-like run is deleted up to the next whitespace or
      the end. Deletion only: the result is a subsequence of the input. */
  function StripUrls(s: seq<char>): (r: seq<char>)
    ensures IsSubsequence(r, s)
    decreases |s|
  {
    if s == [] then []
    else if UrlAt(s) then
      var n := LeadingRun(s, NotSpace);
      var r := StripUrls(s[n..]);
      SubsequenceOfSuffix(r, s, n);
      r
    else
      var r := [s[0]] + StripUrls(s[1..]);
      assert r[0] == s[0] && r[1..] == StripUrls(s[1..]);
      r
  }

  /** Line 13 deletes no whitespace: every deleted character belongs to a
      `\S+` run. */
  lemma {:induction false} StripUrlsKeepsSpaces(s: seq<char>)
    ensures Filter(StripUrls(s), IsSpace) == Filter(s, IsSpace)
    decreases |s|
  {
    if s == [] {
    } else if UrlAt(s) {
      var n := LeadingRun(s, NotSpace);
      assert n > 0;
      assert StripUrls(s) == StripUrls(s[n..]);
      DeletedRunKeepsSpaces(s, n);
      StripUrlsKeepsSpaces(s[n..]);
    } else {
      assert s == [s[0]] + s[1..];
      FilterCons(s[0], s[1..], IsSpace);
      FilterCons(s[0], StripUrls(s[1..]), IsSpace);
      StripUrlsKeepsSpaces(s[1..]);
    }
  }

  /** The leading non-whitespace run of `StripUrls(s)` is a prefix of the
      leading non-whitespace run of `s`: a deletion always stops at
      whitespace, so no new run is glued onto the kept text. */
  lemma {:induction false} StripUrlsHead(s: seq<char>)
    ensures LeadingRun(StripUrls(s), NotSpace) <= LeadingRun(s, NotSpace)
    ensures StripUrls(s)[..LeadingRun(StripUrls(s), NotSpace)] == s[..LeadingRun(StripUrls(s), NotSpace)]
    decreases |s|
  {
    if s != [] && UrlAt(s) {
      StripUrlsHeadAfterMatch(s);
    } else if s != [] && !IsSpace(s[0]) {
      StripUrlsHead(s[1..]);
      KeptCharExtendsRun(s[0], s[1..], StripUrls(s[1..]));
      assert StripUrls(s) == [s[0]] + StripUrls(s[1..]);
      assert s == [s[0]] + s[1..];
    }
  }

  /** After a deletion the scan resumes at whitespace or at the end. */
  lemma StripUrlsHeadAfterMatch(s: seq<char>)
    requires s != [] && UrlAt(s)
    ensures LeadingRun(StripUrls(s), NotSpace) == 0
  {
    var n := LeadingRun(s, NotSpace);
    assert n > 0;
    assert StripUrls(s) == StripUrls(s[n..]);
    if n < |s| {
      var t := s[n..];
      NoUrlAtSpace(t);
      assert StripUrls(t) == [t[0]] + StripUrls(t[1..]);
    }
  }

  /** Putting the same non-whitespace character in front of two texts keeps
      the prefix relation between their leading runs. */
  lemma KeptCharExtendsRun(x: char, s: seq<char>, r: seq<char>)
    requires !IsSpace(x)
    requires LeadingRun(r, NotSpace) <= LeadingRun(s, NotSpace)
    requires r[..LeadingRun(r, NotSpace)] == s[..LeadingRun(r, NotSpace)]
    ensures LeadingRun([x] + r, NotSpace) <= LeadingRun([x] + s, NotSpace)
    ensures ([x] + r)[..LeadingRun([x] + r, NotSpace)] == ([x] + s)[..LeadingRun([x] + r, NotSpace)]
  {
    var m := LeadingRun(r, NotSpace);
    RunCons(x, r);
    RunCons(x, s);
    PrefixCons(x, r, s, m);
  }

  lemma RunCons(x: char, t: seq<char>)
    requires !IsSpace(x)
    ensures LeadingRun([x] + t, NotSpace) == 1 + LeadingRun(t, NotSpace)
  {
    assert ([x] + t)[1..] == t;
  }

  lemma PrefixCons(x: char, r: seq<char>, s: seq<char>, m: nat)
    requires m <= |r| && m <= |s| && r[..m] == s[..m]
    ensures ([x] + r)[..1 + m] == ([x] + s)[..1 + m]
  {
    assert ([x] + r)[..1 + m] == [x] + r[..m];
    assert ([x] + s)[..1 + m] == [x] + s[..m];
  }

  /** No alternative of line 13 matches where whitespace starts. */
  lemma NoUrlAtSpace(t: seq<char>)
    requires t != [] && IsSpace(t[0])
    ensures !UrlAt(t)
  {
    if |t| >= 3 {
      assert t[..3][0] == t[0];
    }
  }

  /** The characters of the literal, then one more non-whitespace
      character, all lie in the leading non-whitespace run. */
  lemma LitInLeadingRun(s: seq<char>, lit: seq<char>)
    requires forall c <- lit :: !IsSpace(c)
    requires LitThenNonSpace(s, lit)
    ensures LeadingRun(s, NotSpace) > |lit|
  {
  }

  /** Whether line 13 matches depends only on the leading non-whitespace run. */
  lemma UrlAtFromLeadingRun(r: seq<char>, s: seq<char>)
    requires LeadingRun(r, NotSpace) <= LeadingRun(s, NotSpace)
    requires r[..LeadingRun(r, NotSpace)] == s[..LeadingRun(r, NotSpace)]
    ensures UrlAt(r) ==> UrlAt(s)
  {
    LitFromLeadingRun(r, s, "http");
    LitFromLeadingRun(r, s, "www");
    LitFromLeadingRun(r, s, "https");
  }

  lemma LitFromLeadingRun(r: seq<char>, s: seq<char>, lit: seq<char>)
    requires forall c <- lit :: !IsSpace(c)
    requires LeadingRun(r, NotSpace) <= LeadingRun(s, NotSpace)
    requires r[..LeadingRun(r, NotSpace)] == s[..LeadingRun(r, NotSpace)]
    ensures LitThenNonSpace(r, lit) ==> LitThenNonSpace(s, lit)
  {
    if LitThenNonSpace(r, lit) {
      var m := LeadingRun(r, NotSpace);
      LitInLeadingRun(r, lit);
      var k := |lit| + 1;
      assert r[..k] == r[..m][..k] == s[..m][..k] == s[..k];
      assert s[..|lit|] == s[..k][..|lit|];
      assert r[..|lit|] == r[..k][..|lit|];
      assert s[|lit|] == s[..k][|lit|];
    }
  }

  /** After line 13 no alternative matches anywhere: no "http" or "www"
      followed by a non-whitespace character is left. */
  lemma {:induction false} StripUrlsLeavesNoUrl(s: seq<char>)
    ensures forall i | 0 <= i < |StripUrls(s)| :: !UrlAt(StripUrls(s)[i..])
    decreases |s|
  {
    var r := StripUrls(s);
    if s != [] {
      if UrlAt(s) {
        var n := LeadingRun(s, NotSpace);
        assert n > 0;
        StripUrlsLeavesNoUrl(s[n..]);
      } else {
        var rest := StripUrls(s[1..]);
        StripUrlsLeavesNoUrl(s[1..]);
        assert r == [s[0]] + rest;
        forall i | 0 <= i < |r|
          ensures !UrlAt(r[i..])
        {
          if i == 0 {
            StripUrlsHead(s);
            UrlAtFromLeadingRun(r, s);
          } else {
            assert r[i..] == rest[i - 1..];
          }
        }
      }
    }
  }

  /** Deleting a prefix none of whose characters is whitespace keeps the
      whitespace of `s`. */
  lemma DeletedRunKeepsSpaces(s: seq<char>, n: nat)
    requires n <= |s|
    requires forall i | 0 <= i < n :: !IsSpace(s[i])
    ensures Filter(s, IsSpace) == Filter(s[n..], IsSpace)
  {
    assert s == s[..n] + s[n..];
    FilterAppend(s[..n], s[n..], IsSpace);
    FilterKeepsNone(s[..n], IsSpace);
  }

  /** The pattern `<sigil>\w+` matches at the front of `s`. */
  predicate TagAt(s: seq<char>, sigil: char) {
    |s| >= 2 && s[0] == sigil && IsWordChar(s[1])
  }

  /** Lines 16 and 19: `@\w+` (mentions) and `#\w+` (hashtags) are deleted
      together with the whole word that follows the sigil. A sigil not followed
      by a word character is kept. Deletion only. */
  function StripTagged(s: seq<char>, sigil: char): (r: seq<char>)
    requires sigil == '@' || sigil == '#'
    ensures IsSubsequence(r, s)
    decreases |s|
  {
    if s == [] then []
    else if TagAt(s, sigil) then
      var n := 1 + LeadingRun(s[1..], IsWordChar);
      var r := StripTagged(s[n..], sigil);
      SubsequenceOfSuffix(r, s, n);
      r
    else
      var r := [s[0]] + StripTagged(s[1..], sigil);
      assert r[0] == s[0] && r[1..] == StripTagged(s[1..], sigil);
      r
  }

  /** Line 16. */
  function StripMentions(s: seq<char>): (r: seq<char>)
    ensures forall i | 0 <= i < |r| :: !TagAt(r[i..], '@')
  {
    StripTaggedLeavesNoTag(s, '@');
    StripTagged(s, '@')
  }

  /** Line 19. */
  function StripHashtags(s: seq<char>): (r: seq<char>)
    ensures forall i | 0 <= i < |r| :: !TagAt(r[i..], '#')
  {
    StripTaggedLeavesNoTag(s, '#');
    StripTagged(s, '#')
  }

  /** Lines 16 and 19 delete no whitespace. */
  lemma {:induction false} StripTaggedKeepsSpaces(s: seq<char>, sigil: char)
    requires sigil == '@' || sigil == '#'
    ensures Filter(StripTagged(s, sigil), IsSpace) == Filter(s, IsSpace)
    decreases |s|
  {
    if s == [] {
    } else if TagAt(s, sigil) {
      var n := 1 + LeadingRun(s[1..], IsWordChar);
      assert StripTagged(s, sigil) == StripTagged(s[n..], sigil);
      forall i | 0 <= i < n
        ensures !IsSpace(s[i])
      {
        if i > 0 {
          assert s[i] == s[1..][i - 1];
          WordCharNotSpace(s[i]);
        }
      }
      DeletedRunKeepsSpaces(s, n);
      StripTaggedKeepsSpaces(s[n..], sigil);
    } else {
      assert s == [s[0]] + s[1..];
      FilterCons(s[0], s[1..], IsSpace);
      FilterCons(s[0], StripTagged(s[1..], sigil), IsSpace);
      StripTaggedKeepsSpaces(s[1..], sigil);
    }
  }

  /** The first character left is the input's own first character, or one
      that cannot continue a word. */
  lemma {:induction false} StripTaggedHead(s: seq<char>, sigil: char)
    requires sigil == '@' || sigil == '#'
    ensures StripTagged(s, sigil) != [] ==>
      StripTagged(s, sigil)[0] == s[0] || !IsWordChar(StripTagged(s, sigil)[0])
    decreases |s|
  {
    if s != [] && TagAt(s, sigil) {
      var n := 1 + LeadingRun(s[1..], IsWordChar);
      assert StripTagged(s, sigil) == StripTagged(s[n..], sigil);
      StripTaggedHead(s[n..], sigil);
      if n < |s| {
        assert s[n..][0] == s[1..][n - 1];
      }
    }
  }

  /** After lines 16 / 19 no sigil followed by a word character is left. */
  lemma {:induction false} StripTaggedLeavesNoTag(s: seq<char>, sigil: char)
    requires sigil == '@' || sigil == '#'
    ensures forall i | 0 <= i < |StripTagged(s, sigil)| :: !TagAt(StripTagged(s, sigil)[i..], sigil)
    decreases |s|
  {
    var r := StripTagged(s, sigil);
    if s != [] {
      if TagAt(s, sigil) {
        var n := 1 + LeadingRun(s[1..], IsWordChar);
        StripTaggedLeavesNoTag(s[n..], sigil);
      } else {
        var rest := StripTagged(s[1..], sigil);
        StripTaggedLeavesNoTag(s[1..], sigil);
        assert r == [s[0]] + rest;
        forall i | 0 <= i < |r|
          ensures !TagAt(r[i..], sigil)
        {
          if i == 0 {
            StripTaggedHead(s[1..], sigil);
            assert r[1..] == rest;
          } else {
            assert r[i..] == rest[i - 1..];
          }
        }
      }
    }
  }

  /** A sigil not followed by a word character is not a match of lines
      16 / 19: it stays, for line 22 to delete. */
  lemma StripTaggedKeepsBareSigil(s: seq<char>, sigil: char)
    requires sigil == '@' || sigil == '#'
    requires s != [] && s[0] == sigil && (|s| == 1 || !IsWordChar(s[1]))
    ensures StripTagged(s, sigil) != [] && StripTagged(s, sigil)[0] == sigil
  {
    assert !TagAt(s, sigil);
  }

  /** Line 22: `[^A-Za-z0-9\s]+` deletes every character that is neither an
      ASCII letter or digit nor whitespace. Deleting the maximal runs of such
      characters deletes exactly these characters, one by one. */
  function StripPunctuation(s: seq<char>): (r: seq<char>)
    ensures forall c <- r :: IsAsciiAlnum(c) || IsSpace(c)
  {
    Filter(s, KeptByPunctuationStep)
  }

  /** Line 22 deletes only: it keeps every letter, digit and whitespace
      character, as often as it occurs and in order, and deletes every
      other character. */
  lemma StripPunctuationKeeps(s: seq<char>)
    ensures forall c ::
      multiset(StripPunctuation(s))[c] == if KeptByPunctuationStep(c) then multiset(s)[c] else 0
    ensures forall c <- s :: (IsAsciiAlnum(c) || IsSpace(c)) ==> c in StripPunctuation(s)
    ensures IsSubsequence(StripPunctuation(s), s)
    ensures Filter(StripPunctuation(s), IsSpace) == Filter(s, IsSpace)
  {
    FilterCounts(s, KeptByPunctuationStep);
    InFilter(s, KeptByPunctuationStep);
    FilterOfFilter(s, KeptByPunctuationStep, IsSpace);
  }

  /** Line 13 keeps, character for character, a stretch of text at none of
      whose positions an alternative matches, and goes on with the rest. */
  lemma {:induction false} StripUrlsKeepsPrefix(a: seq<char>, b: seq<char>)
    requires forall i | 0 <= i < |a| :: !UrlAt((a + b)[i..])
    ensures StripUrls(a + b) == a + StripUrls(b)
    decreases |a|
  {
    if a == [] {
      assert a + b == b;
    } else {
      var r := StripUrls(b);
      NoUrlShift(a, b);
      StripUrlsKeepsPrefix(a[1..], b);
      StripUrlsKeep(a, b);
      assert StripUrls(a + b) == [a[0]] + (a[1..] + r);
      assert [a[0]] + (a[1..] + r) == ([a[0]] + a[1..]) + r;
      assert a == [a[0]] + a[1..];
    }
  }

  /** The requirement of `StripUrlsKeepsPrefix`, one character further on. */
  lemma NoUrlShift(a: seq<char>, b: seq<char>)
    requires a != [] && forall i | 0 <= i < |a| :: !UrlAt((a + b)[i..])
    ensures !UrlAt(a + b)
    ensures forall i | 0 <= i < |a[1..]| :: !UrlAt((a[1..] + b)[i..])
  {
    var s, t := a + b, a[1..] + b;
    assert s[0..] == s;
    forall i | 0 <= i < |a[1..]| ensures !UrlAt(t[i..]) {
      assert t[i..] == s[i + 1..];
    }
  }

  /** One step of the scan of line 13 where no alternative matches. */
  lemma StripUrlsKeep(a: seq<char>, b: seq<char>)
    requires a != [] && !UrlAt(a + b)
    ensures StripUrls(a + b) == [a[0]] + StripUrls(a[1..] + b)
  {
    assert (a + b)[1..] == a[1..] + b;
  }

  /** A whitespace-free run at which line 13 matches, ended by whitespace or
      the end of the text, is deleted whole, and the scan goes on after it. */
  lemma StripUrlsDeletesWord(u: seq<char>, rest: seq<char>)
    requires UrlAt(u) && forall c <- u :: !IsSpace(c)
    requires rest == [] || IsSpace(rest[0])
    ensures StripUrls(u + rest) == StripUrls(rest)
  {
    var s := u + rest;
    RunLength(u, NotSpace, |u|);
    RunLength(s, NotSpace, |u|);
    assert s[..|u|] == u;
    UrlAtFromLeadingRun(u, s);
    assert s[|u|..] == rest;
  }

  /** In a whitespace-free word, line 13 keeps the part before the first
      position where an alternative matches and deletes everything from
      there on. */
  lemma {:induction false} StripUrlsCutsWord(s: seq<char>) returns (j: nat)
    requires forall c <- s :: !IsSpace(c)
    ensures j <= |s| && StripUrls(s) == s[..j]
    ensures forall i | 0 <= i < j :: !UrlAt(s[i..])
    ensures j < |s| ==> UrlAt(s[j..])
    decreases |s|
  {
    if s == [] {
      j := 0;
    } else if UrlAt(s) {
      StripUrlsWholeWord(s);
      j := 0;
    } else {
      assert forall c <- s[1..] :: c in s;
      var k := StripUrlsCutsWord(s[1..]);
      j := k + 1;
      assert StripUrls(s) == [s[0]] + StripUrls(s[1..]);
      assert s[..j] == [s[0]] + s[1..][..k];
      forall i | 0 <= i < j ensures !UrlAt(s[i..]) {
        if i == 0 {
          assert s[0..] == s;
        } else {
          assert s[i..] == s[1..][i - 1..];
        }
      }
      if j < |s| {
        assert s[j..] == s[1..][k..];
      }
    }
  }

  /** Lines 16 / 19 keep, character for character, a stretch of text at none
      of whose positions the pattern matches, and go on with the rest. */
  lemma {:induction false} StripTaggedKeepsPrefix(a: seq<char>, b: seq<char>, sigil: char)
    requires sigil == '@' || sigil == '#'
    requires forall i | 0 <= i < |a| :: !TagAt((a + b)[i..], sigil)
    ensures StripTagged(a + b, sigil) == a + StripTagged(b, sigil)
    decreases |a|
  {
    if a == [] {
      assert a + b == b;
    } else {
      var r := StripTagged(b, sigil);
      NoTagShift(a, b, sigil);
      StripTaggedKeepsPrefix(a[1..], b, sigil);
      StripTaggedKeep(a, b, sigil);
      assert StripTagged(a + b, sigil) == [a[0]] + (a[1..] + r);
      assert [a[0]] + (a[1..] + r) == ([a[0]] + a[1..]) + r;
      assert a == [a[0]] + a[1..];
    }
  }

  /** The requirement of `StripTaggedKeepsPrefix`, one character further on. */
  lemma NoTagShift(a: seq<char>, b: seq<char>, sigil: char)
    requires a != [] && forall i | 0 <= i < |a| :: !TagAt((a + b)[i..], sigil)
    ensures !TagAt(a + b, sigil)
    ensures forall i | 0 <= i < |a[1..]| :: !TagAt((a[1..] + b)[i..], sigil)
  {
    var s, t := a + b, a[1..] + b;
    assert s[0..] == s;
    forall i | 0 <= i < |a[1..]| ensures !TagAt(t[i..], sigil) {
      assert t[i..] == s[i + 1..];
    }
  }

  /** One step of the scan of lines 16 / 19 where the pattern does not match. */
  lemma StripTaggedKeep(a: seq<char>, b: seq<char>, sigil: char)
    requires sigil == '@' || sigil == '#'
    requires a != [] && !TagAt(a + b, sigil)
    ensures StripTagged(a + b, sigil) == [a[0]] + StripTagged(a[1..] + b, sigil)
  {
    assert (a + b)[1..] == a[1..] + b;
  }

  /** Lines 16 / 19 leave a text in which the pattern matches nowhere
      unchanged. */
  lemma StripTaggedNoMatch(s: seq<char>, sigil: char)
    requires sigil == '@' || sigil == '#'
    requires forall i | 0 <= i < |s| :: !TagAt(s[i..], sigil)
    ensures StripTagged(s, sigil) == s
  {
    assert s + [] == s;
    StripTaggedKeepsPrefix(s, [], sigil);
  }

  /** A sigil and the whole word after it are deleted together, and the scan
      goes on with what follows the word. */
  lemma StripTaggedDeletesWord(sigil: char, w: seq<char>, rest: seq<char>)
    requires sigil == '@' || sigil == '#'
    requires w != [] && forall c <- w :: IsWordChar(c)
    requires rest == [] || !IsWordChar(rest[0])
    ensures StripTagged([sigil] + w + rest, sigil) == StripTagged(rest, sigil)
  {
    var s := [sigil] + w + rest;
    assert s[1..] == w + rest;
    assert s[1] == w[0];
    RunLength(s[1..], IsWordChar, |w|);
    assert s[1 + |w|..] == rest;
  }

  /** Without the sigil the pattern of lines 16 / 19 matches nowhere. */
  lemma NoTagWithoutSigil(s: seq<char>, sigil: char)
    requires sigil !in s
    ensures forall i | 0 <= i < |s| :: !TagAt(s[i..], sigil)
  {
    forall i | 0 <= i < |s| ensures !TagAt(s[i..], sigil) {
      assert s[i..][0] == s[i];
    }
  }

  /** Line 13 leaves a text in which no alternative matches unchanged. */
  lemma {:induction false} StripUrlsNoMatch(s: seq<char>)
    requires forall i | 0 <= i < |s| :: !UrlAt(s[i..])
    ensures StripUrls(s) == s
    decreases |s|
  {
    if s != [] {
      assert s[0..] == s;
      forall i | 0 <= i < |s[1..]| ensures !UrlAt(s[1..][i..]) {
        assert s[1..][i..] == s[i + 1..];
      }
      StripUrlsNoMatch(s[1..]);
    }
  }

  /** Lines 16 / 19 leave a text without the sigil unchanged. */
  lemma {:induction false} StripTaggedNoSigil(s: seq<char>, sigil: char)
    requires sigil == '@' || sigil == '#'
    requires sigil !in s
    ensures StripTagged(s, sigil) == s
    decreases |s|
  {
    if s != [] {
      StripTaggedNoSigil(s[1..], sigil);
    }
  }

  /** Every alternative of line 13 starts with "ht" or "ww". */
  lemma UrlAtFirstLetters(s: seq<char>)
    ensures UrlAt(s) ==> |s| >= 4 && ((s[0] == 'h' && s[1] == 't') || (s[0] == 'w' && s[1] == 'w'))
  {
    if UrlAt(s) {
      assert s[0] == s[..3][0] && s[1] == s[..3][1];
    }
  }

  /** Neither "ht" nor "ww" occurs in `s`. */
  predicate LacksUrlPrefix(s: seq<char>) {
    forall i | 0 <= i < |s| - 1 :: !(s[i] == 'h' && s[i + 1] == 't') && !(s[i] == 'w' && s[i + 1] == 'w')
  }

  /** Without "ht" and "ww" no alternative of line 13 matches anywhere. */
  lemma NoUrlWithoutPrefixes(s: seq<char>)
    requires LacksUrlPrefix(s)
    ensures forall i | 0 <= i < |s| :: !UrlAt(s[i..])
  {
    forall i | 0 <= i < |s| ensures !UrlAt(s[i..]) {
      UrlAtFirstLetters(s[i..]);
      if i + 1 < |s| {
        assert s[i..][0] == s[i] && s[i..][1] == s[i + 1];
      }
    }
  }

  /** A whitespace-free word at which line 13 matches is deleted whole:
      `\S+` runs to its end. */
  lemma StripUrlsWholeWord(s: seq<char>)
    requires UrlAt(s) && forall c <- s :: !IsSpace(c)
    ensures StripUrls(s) == []
  {
    RunLength(s, NotSpace, |s|);
    assert StripUrls(s) == StripUrls(s[|s|..]);
    assert s[|s|..] == [];
  }

  /** A sigil followed only by word characters is deleted whole: `\w+` runs
      to the end of the word. */
  lemma StripTaggedWholeWord(s: seq<char>, sigil: char)
    requires sigil == '@' || sigil == '#'
    requires |s| >= 2 && s[0] == sigil && forall i | 1 <= i < |s| :: IsWordChar(s[i])
    ensures StripTagged(s, sigil) == []
  {
    assert TagAt(s, sigil);
    RunLength(s[1..], IsWordChar, |s| - 1);
    assert StripTagged(s, sigil) == StripTagged(s[|s|..], sigil);
    assert s[|s|..] == [];
  }

  /** Line 22 deletes a run of punctuation between two kept parts, joining
      them. */
  lemma StripPunctuationGap(w: seq<char>, p: seq<char>, v: seq<char>)
    requires forall c <- w :: IsAsciiAlnum(c) || IsSpace(c)
    requires forall c <- p :: !IsAsciiAlnum(c) && !IsSpace(c)
    requires forall c <- v :: IsAsciiAlnum(c) || IsSpace(c)
    ensures StripPunctuation(w + p + v) == w + v
  {
    FilterGap(w, p, v, KeptByPunctuationStep);
  }

  /** Appending whitespace and more text changes neither the leading
      non-whitespace run of `a` nor whether line 13 matches at its front. */
  lemma UrlAtAround(a: seq<char>, c: char, b: seq<char>)
    requires IsSpace(c) && a != []
    ensures LeadingRun(a + [c] + b, NotSpace) == LeadingRun(a, NotSpace)
    ensures UrlAt(a + [c] + b) <==> UrlAt(a)
  {
    var s := a + [c] + b;
    var m := LeadingRun(a, NotSpace);
    assert forall i | 0 <= i < m :: s[i] == a[i];
    RunLength(s, NotSpace, m);
    assert s[..m] == a[..m];
    UrlAtFromLeadingRun(a, s);
    UrlAtFromLeadingRun(s, a);
  }

  /** No match of line 13 crosses whitespace, so the step works piece by
      piece around any whitespace character. */
  lemma {:induction false} StripUrlsAround(a: seq<char>, c: char, b: seq<char>)
    requires IsSpace(c)
    ensures StripUrls(a + [c] + b) == StripUrls(a) + [c] + StripUrls(b)
    decreases |a|, 1
  {
    if a == [] {
      var s := a + [c] + b;
      assert s == [c] + b;
      NoUrlAtSpace(s);
      assert s[1..] == b;
    } else {
      StripUrlsAroundStep(a, c, b);
    }
  }

  /** One step of the scan of `a + [c] + b`: the same as the step on `a`. */
  lemma {:induction false} StripUrlsAroundStep(a: seq<char>, c: char, b: seq<char>)
    requires IsSpace(c) && a != []
    ensures StripUrls(a + [c] + b) == StripUrls(a) + [c] + StripUrls(b)
    decreases |a|, 0
  {
    var s := a + [c] + b;
    UrlAtAround(a, c, b);
    var m := if UrlAt(a) then LeadingRun(a, NotSpace) else 1;
    assert m > 0;
    DropFromAround(a, c, b, m);
    StripUrlsAround(a[m..], c, b);
    var tail := StripUrls(a[m..]) + [c] + StripUrls(b);
    if UrlAt(a) {
      assert StripUrls(s) == StripUrls(s[m..]) == tail;
      assert StripUrls(a) == StripUrls(a[m..]);
    } else {
      assert StripUrls(s) == [a[0]] + StripUrls(s[1..]) == [a[0]] + tail;
      assert StripUrls(a) == [a[0]] + StripUrls(a[1..]);
      ConsAround(a[0], StripUrls(a[1..]), c, StripUrls(b));
    }
  }

  /** Appending whitespace and more text changes neither whether lines
      16 / 19 match at the front of `a` nor the extent of the match. */
  lemma TagAtAround(a: seq<char>, c: char, b: seq<char>, sigil: char)
    requires sigil == '@' || sigil == '#'
    requires IsSpace(c) && a != []
    ensures TagAt(a + [c] + b, sigil) <==> TagAt(a, sigil)
    ensures TagAt(a, sigil) ==>
      LeadingRun((a + [c] + b)[1..], IsWordChar) == LeadingRun(a[1..], IsWordChar)
  {
    var s := a + [c] + b;
    WordCharNotSpace(c);
    assert s[0] == a[0];
    if |a| >= 2 {
      assert s[1] == a[1];
    }
    if TagAt(a, sigil) {
      var k := LeadingRun(a[1..], IsWordChar);
      assert forall i | 0 <= i < k :: s[1..][i] == a[1..][i];
      RunLength(s[1..], IsWordChar, k);
    }
  }

  /** No match of lines 16 / 19 crosses whitespace either. */
  lemma {:induction false} StripTaggedAround(a: seq<char>, c: char, b: seq<char>, sigil: char)
    requires sigil == '@' || sigil == '#'
    requires IsSpace(c)
    ensures StripTagged(a + [c] + b, sigil) == StripTagged(a, sigil) + [c] + StripTagged(b, sigil)
    decreases |a|, 1
  {
    if a == [] {
      var s := a + [c] + b;
      assert s == [c] + b;
      assert s[1..] == b;
    } else {
      StripTaggedAroundStep(a, c, b, sigil);
    }
  }

  /** One step of the scan of `a + [c] + b`: the same as the step on `a`. */
  lemma {:induction false} StripTaggedAroundStep(a: seq<char>, c: char, b: seq<char>, sigil: char)
    requires sigil == '@' || sigil == '#'
    requires IsSpace(c) && a != []
    ensures StripTagged(a + [c] + b, sigil) == StripTagged(a, sigil) + [c] + StripTagged(b, sigil)
    decreases |a|, 0
  {
    var s := a + [c] + b;
    TagAtAround(a, c, b, sigil);
    var m := if TagAt(a, sigil) then 1 + LeadingRun(a[1..], IsWordChar) else 1;
    DropFromAround(a, c, b, m);
    StripTaggedAround(a[m..], c, b, sigil);
    var tail := StripTagged(a[m..], sigil) + [c] + StripTagged(b, sigil);
    if TagAt(a, sigil) {
      assert StripTagged(s, sigil) == StripTagged(s[m..], sigil) == tail;
      assert StripTagged(a, sigil) == StripTagged(a[m..], sigil);
    } else {
      assert StripTagged(s, sigil) == [a[0]] + StripTagged(s[1..], sigil) == [a[0]] + tail;
      assert StripTagged(a, sigil) == [a[0]] + StripTagged(a[1..], sigil);
      ConsAround(a[0], StripTagged(a[m..], sigil), c, StripTagged(b, sigil));
    }
  }

  /** Line 22 keeps whitespace and works piece by piece. */
  lemma StripPunctuationAround(a: seq<char>, c: char, b: seq<char>)
    requires IsSpace(c)
    ensures StripPunctuation(a + [c] + b) == StripPunctuation(a) + [c] + StripPunctuation(b)
  {
    FilterAppend(a + [c], b, KeptByPunctuationStep);
    FilterAppend(a, [c], KeptByPunctuationStep);
    FilterCons(c, [], KeptByPunctuationStep);
  }
}
