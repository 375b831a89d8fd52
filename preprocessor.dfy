/**
  The text cleaner `preprocess` of preprocessor.py (lines 11-37): four
  regex deletions, tokenizing, lowercasing, stopword removal and joining,
  in that order. The English stopword list is a parameter `stop`.
*/
module Preprocessor {
  import opened Chars
  import opened Seqs
  import opened RegexSteps
  import opened Tokens

  /** Lines 13-22: URLs, mentions, hashtags, then every character that is
      not an ASCII letter, digit or whitespace. */
  function Clean(text: seq<char>): (r: seq<char>)
    ensures forall c <- r :: IsAsciiAlnum(c) || IsSpace(c)
  {
    StripPunctuation(StripHashtags(StripMentions(StripUrls(text))))
  }

  /** Line 28: every token lowercased, position by position. */
  function Lowered(toks: seq<seq<char>>): (r: seq<seq<char>>)
    ensures |r| == |toks|
  {
    seq(|toks|, i requires 0 <= i < |toks| => LowerWord(toks[i]))
  }

  /** Line 32: the words that are not stopwords, in their original order;
      every other word is kept as often as it occurs. */
  function DropStopwords(ws: seq<seq<char>>, stop: set<seq<char>>): (r: seq<seq<char>>)
    ensures IsSubsequence(r, ws)
    ensures forall w :: w in r <==> w in ws && w !in stop
    ensures forall w :: multiset(r)[w] == if w in stop then 0 else multiset(ws)[w]
  {
    InFilter(ws, NotIn(stop));
    FilterCounts(ws, NotIn(stop));
    Filter(ws, NotIn(stop))
  }

  /** The test of line 32, `word not in stop_words`. */
  function NotIn(stop: set<seq<char>>): seq<char> -> bool {
    w => w !in stop
  }

  /** Lines 28-35 applied to a token list. */
  function Finish(toks: seq<seq<char>>, stop: set<seq<char>>): seq<char> {
    Join(DropStopwords(Lowered(toks), stop))
  }

  /** `preprocess(text)` (lines 11-37), with `word_tokenize` modelled by the
      whitespace split. The result is lowercase letters, digits and single
      spaces between words, and none of its words is a stopword. */
  function Preprocess(text: seq<char>, stop: set<seq<char>>): (r: seq<char>)
    ensures forall c <- r :: IsLowerAlnum(c) || c == ' '
    ensures SingleSpaced(r)
    ensures forall w <- SplitWords(r) :: w !in stop
  {
    var toks := SplitWords(Clean(text));
    TokensOfCleanText(text, toks);
    FinishShape(toks, stop);
    Finish(toks, stop)
  }

  /** Any admissible tokenization of the cleaned text yields non-empty tokens
      made of ASCII letters and digits. */
  lemma TokensOfCleanText(text: seq<char>, toks: seq<seq<char>>)
    requires IsTokenization(Clean(text), toks)
    ensures forall t <- toks :: t != [] && forall c <- t :: IsAsciiAlnum(c)
  {
    forall t <- toks, c <- t
      ensures IsAsciiAlnum(c)
    {
      var i :| 0 <= i < |toks| && toks[i] == t;
      InConcat(toks, i, c);
      InFilter(Clean(text), NotSpace);
    }
  }

  /** The words that survive line 32 are lowercased tokens: non-empty,
      lowercase letters and digits. */
  lemma KeptWords(toks: seq<seq<char>>, stop: set<seq<char>>)
    requires forall t <- toks :: t != [] && forall c <- t :: IsAsciiAlnum(c)
    ensures forall w <- DropStopwords(Lowered(toks), stop) ::
      IsToken(w) && ' ' !in w && forall c <- w :: IsLowerAlnum(c)
  {
    var low := Lowered(toks);
    forall w <- DropStopwords(low, stop)
      ensures IsToken(w) && ' ' !in w && forall c <- w :: IsLowerAlnum(c)
    {
      var i :| 0 <= i < |low| && low[i] == w;
      assert toks[i] in toks;
      forall c <- w ensures !IsSpace(c) {
        WordCharNotSpace(c);
      }
    }
  }

  /** Lines 28-35 on tokens of ASCII letters and digits: the text is
      lowercase letters, digits and single spaces, and its words are the
      lowercased tokens, in order, without the stopwords. */
  lemma FinishShape(toks: seq<seq<char>>, stop: set<seq<char>>)
    requires forall t <- toks :: t != [] && forall c <- t :: IsAsciiAlnum(c)
    ensures forall c <- Finish(toks, stop) :: IsLowerAlnum(c) || c == ' '
    ensures SingleSpaced(Finish(toks, stop))
    ensures SplitWords(Finish(toks, stop)) == DropStopwords(Lowered(toks), stop)
  {
    var kept := DropStopwords(Lowered(toks), stop);
    KeptWords(toks, stop);
    JoinShape(kept);
    JoinAlphabet(kept, IsLowerAlnum);
    SplitJoin(kept);
  }

  /** Lines 28-35 give the empty text exactly when every token lowercases to
      a stopword. */
  lemma FinishEmpty(toks: seq<seq<char>>, stop: set<seq<char>>)
    requires forall t <- toks :: t != [] && forall c <- t :: IsAsciiAlnum(c)
    ensures Finish(toks, stop) == [] <==> forall t <- toks :: LowerWord(t) in stop
  {
    var low := Lowered(toks);
    var kept := DropStopwords(low, stop);
    KeptWords(toks, stop);
    JoinShape(kept);
    if kept == [] {
      forall t <- toks ensures LowerWord(t) in stop {
        var i :| 0 <= i < |toks| && toks[i] == t;
        assert low[i] in low;
      }
    } else {
      assert kept[0] in kept;
      var i :| 0 <= i < |low| && low[i] == kept[0];
      assert toks[i] in toks;
    }
  }

  /** Every output shape property holds for ANY tokenizer meeting the
      tokenization contract, such as one that also splits "cannot" into
      "can" and "not". */
  lemma AnyTokenizerShape(text: seq<char>, toks: seq<seq<char>>, stop: set<seq<char>>)
    requires IsTokenization(Clean(text), toks)
    ensures forall c <- Finish(toks, stop) :: IsLowerAlnum(c) || c == ' '
    ensures SingleSpaced(Finish(toks, stop))
    ensures SplitWords(Finish(toks, stop)) == DropStopwords(Lowered(toks), stop)
    ensures forall w <- SplitWords(Finish(toks, stop)) :: w !in stop
  {
    TokensOfCleanText(text, toks);
    FinishShape(toks, stop);
  }

  /** The words of the result are the lowercased tokens in their original
      order, with the stopwords (and only those) dropped. */
  lemma PreprocessWords(text: seq<char>, stop: set<seq<char>>)
    ensures SplitWords(Preprocess(text, stop)) == DropStopwords(Lowered(SplitWords(Clean(text))), stop)
  {
    TokensOfCleanText(text, SplitWords(Clean(text)));
    FinishShape(SplitWords(Clean(text)), stop);
  }

  /** The result is empty exactly when every token lowercases to a stopword. */
  lemma PreprocessEmptyExactly(text: seq<char>, stop: set<seq<char>>)
    ensures Preprocess(text, stop) == [] <==>
      forall t <- SplitWords(Clean(text)) :: LowerWord(t) in stop
  {
    TokensOfCleanText(text, SplitWords(Clean(text)));
    FinishEmpty(SplitWords(Clean(text)), stop);
  }

  lemma PreprocessEmptyInput(stop: set<seq<char>>)
    ensures Preprocess("", stop) == ""
  {
    assert Clean("") == "";
  }

  /** Lines 13-22 leave a text of ASCII letters, digits and whitespace,
      with nothing for line 13 to delete, unchanged. */
  lemma CleanUnchanged(t: seq<char>)
    requires forall c <- t :: IsAsciiAlnum(c) || IsSpace(c)
    requires forall i | 0 <= i < |t| :: !UrlAt(t[i..])
    ensures Clean(t) == t
  {
    StripUrlsNoMatch(t);
    StripTaggedNoSigil(t, '@');
    StripTaggedNoSigil(t, '#');
    FilterKeepsAll(t, KeptByPunctuationStep);
  }

  /** No pattern of lines 13-22 reaches across whitespace: each side of a
      whitespace character is cleaned on its own and the character stays. */
  lemma CleanAround(a: seq<char>, c: char, b: seq<char>)
    requires IsSpace(c)
    ensures Clean(a + [c] + b) == Clean(a) + [c] + Clean(b)
  {
    StripUrlsAround(a, c, b);
    var u1, u2 := StripUrls(a), StripUrls(b);
    StripTaggedAround(u1, c, u2, '@');
    var m1, m2 := StripMentions(u1), StripMentions(u2);
    StripTaggedAround(m1, c, m2, '#');
    StripPunctuationAround(StripHashtags(m1), c, StripHashtags(m2));
  }

  lemma LoweredAppend(xs: seq<seq<char>>, ys: seq<seq<char>>)
    ensures Lowered(xs + ys) == Lowered(xs) + Lowered(ys)
  {
    var zs := xs + ys;
    assert forall i | 0 <= i < |xs| :: zs[i] == xs[i];
    assert forall i | |xs| <= i < |zs| :: zs[i] == ys[i - |xs|];
  }

  lemma DropStopwordsAppend(xs: seq<seq<char>>, ys: seq<seq<char>>, stop: set<seq<char>>)
    ensures DropStopwords(xs + ys, stop) == DropStopwords(xs, stop) + DropStopwords(ys, stop)
  {
    FilterAppend(xs, ys, NotIn(stop));
  }

  /** `preprocess` works word by word: the result for two texts separated by
      whitespace is the two results joined by one space, an empty side
      contributing nothing. */
  lemma PreprocessWordByWord(a: seq<char>, c: char, b: seq<char>, stop: set<seq<char>>)
    requires IsSpace(c)
    ensures Preprocess(a + [c] + b, stop) == Glue(Preprocess(a, stop), Preprocess(b, stop))
  {
    CleanAround(a, c, b);
    var ta, tb := SplitWords(Clean(a)), SplitWords(Clean(b));
    SplitWordsAround(Clean(a), c, Clean(b));
    TokensOfCleanText(a, ta);
    TokensOfCleanText(b, tb);
    FinishAppend(ta, tb, stop);
  }

  /** Lines 28-35 on two token lists in a row: the two texts joined by one
      space, an empty side contributing nothing. */
  lemma FinishAppend(ta: seq<seq<char>>, tb: seq<seq<char>>, stop: set<seq<char>>)
    requires forall t <- ta :: t != [] && forall c <- t :: IsAsciiAlnum(c)
    requires forall t <- tb :: t != [] && forall c <- t :: IsAsciiAlnum(c)
    ensures Finish(ta + tb, stop) == Glue(Finish(ta, stop), Finish(tb, stop))
  {
    LoweredAppend(ta, tb);
    var la, lb := Lowered(ta), Lowered(tb);
    DropStopwordsAppend(la, lb, stop);
    var ka, kb := DropStopwords(la, stop), DropStopwords(lb, stop);
    KeptWords(ta, stop);
    KeptWords(tb, stop);
    assert forall w <- ka + kb :: w in ka || w in kb;
    JoinGlue(ka, kb);
  }

  /** A text that cleans to nothing gives the empty result. */
  lemma PreprocessOfEmptyClean(text: seq<char>, stop: set<seq<char>>)
    requires Clean(text) == []
    ensures Preprocess(text, stop) == []
  {
    assert SplitWords(Clean(text)) == [];
  }

  /** A whitespace-free word in which none of the patterns of lines 13-19
      matches anywhere loses only what line 22 deletes, is lowercased, and
      is kept unless it is then empty or a stopword. */
  lemma PreprocessSingleWord(s: seq<char>, stop: set<seq<char>>)
    requires forall c <- s :: !IsSpace(c)
    requires forall i | 0 <= i < |s| :: !UrlAt(s[i..]) && !TagAt(s[i..], '@') && !TagAt(s[i..], '#')
    ensures Preprocess(s, stop) ==
      var w := StripPunctuation(s);
      if w == [] || LowerWord(w) in stop then [] else LowerWord(w)
  {
    StripUrlsNoMatch(s);
    StripTaggedNoMatch(s, '@');
    StripTaggedNoMatch(s, '#');
    var w := StripPunctuation(s);
    assert Clean(s) == w;
    if w == [] {
      PreprocessOfEmptyClean(s, stop);
    } else {
      InFilter(s, KeptByPunctuationStep);
      PreprocessOneWord(s, w, stop);
    }
  }

  /** A word of ASCII letters and digits without "ht" and "ww" is only
      lowercased, and kept unless it is a stopword. */
  lemma PreprocessPlainWord(w: seq<char>, stop: set<seq<char>>)
    requires LacksUrlPrefix(w) && w != [] && forall c <- w :: IsAsciiAlnum(c)
    ensures Preprocess(w, stop) == if LowerWord(w) in stop then [] else LowerWord(w)
  {
    NoUrlWithoutPrefixes(w);
    CleanUnchanged(w);
    PreprocessOneWord(w, w, stop);
  }

  /** A mention or hashtag, sigil and word characters only, contributes
      nothing, whether or not line 13 first cuts a URL off its end. */
  lemma PreprocessTaggedWord(s: seq<char>, sigil: char, stop: set<seq<char>>)
    requires sigil == '@' || sigil == '#'
    requires |s| >= 2 && s[0] == sigil && forall i | 1 <= i < |s| :: IsWordChar(s[i])
    ensures Preprocess(s, stop) == []
  {
    forall c <- s ensures !IsSpace(c) {
      WordCharNotSpace(c);
    }
    var j := StripUrlsCutsWord(s);
    UrlAtFirstLetters(s);
    assert s[0..] == s;
    TaggedPrefixCleansAway(s[..j], sigil);
    PreprocessOfEmptyClean(s, stop);
  }

  /** What line 13 leaves of a tagged word, the sigil and possibly some word
      characters after it, lines 16-22 delete. */
  lemma TaggedPrefixCleansAway(t: seq<char>, sigil: char)
    requires sigil == '@' || sigil == '#'
    requires |t| >= 1 && t[0] == sigil && forall i | 1 <= i < |t| :: IsWordChar(t[i])
    ensures StripPunctuation(StripHashtags(StripMentions(t))) == []
  {
    if |t| == 1 {
      assert StripTagged(t, '@') == t && StripTagged(t, '#') == t;
      assert t == [sigil];
    } else {
      StripTaggedWholeWord(t, sigil);
      if sigil == '#' {
        assert '@' !in t;
        StripTaggedNoSigil(t, '@');
      }
    }
  }

  /** A whitespace-free word at which line 13 matches contributes nothing. */
  lemma PreprocessUrlWord(s: seq<char>, stop: set<seq<char>>)
    requires UrlAt(s) && forall c <- s :: !IsSpace(c)
    ensures Preprocess(s, stop) == []
  {
    StripUrlsWholeWord(s);
    PreprocessOfEmptyClean(s, stop);
  }

  /** A text that cleans to one word gives that word lowercased, or nothing
      when the lowercased word is a stopword. */
  lemma PreprocessOneWord(text: seq<char>, w: seq<char>, stop: set<seq<char>>)
    requires Clean(text) == w && w != [] && forall c <- w :: IsAsciiAlnum(c)
    ensures Preprocess(text, stop) == if LowerWord(w) in stop then [] else LowerWord(w)
  {
    forall c <- w ensures !IsSpace(c) {
      WordCharNotSpace(c);
    }
    SplitOneToken(w);
    var lw := LowerWord(w);
    assert Lowered([w]) == [lw];
    FilterCons(lw, [], NotIn(stop));
    var kept := DropStopwords([lw], stop);
    assert kept == if lw in stop then [] else [lw];
    assert Preprocess(text, stop) == Finish([w], stop) == Join(kept);
  }

  /** Line 28 leaves the words of a lowercase text unchanged. */
  lemma LoweredFixedPoint(t: seq<char>)
    requires forall c <- t :: IsLowerAlnum(c) || c == ' '
    ensures Lowered(SplitWords(t)) == SplitWords(t)
  {
    var ws := SplitWords(t);
    InFilter(t, NotSpace);
    forall i | 0 <= i < |ws|
      ensures LowerWord(ws[i]) == ws[i]
    {
      forall c <- ws[i] ensures IsLowerAlnum(c) {
        InConcat(ws, i, c);
      }
    }
  }

  /** A text that already has the output's shape (lowercase letters and
      digits, single spaces, no stopword, nothing line 13 would delete) is
      returned unchanged. */
  lemma PreprocessFixedPoint(t: seq<char>, stop: set<seq<char>>)
    requires forall c <- t :: IsLowerAlnum(c) || c == ' '
    requires SingleSpaced(t)
    requires forall w <- SplitWords(t) :: w !in stop
    requires forall i | 0 <= i < |t| :: !UrlAt(t[i..])
    ensures Preprocess(t, stop) == t
  {
    CleanUnchanged(t);
    LoweredFixedPoint(t);
    var ws := SplitWords(t);
    FilterKeepsAll(ws, NotIn(stop));
    forall c <- t ensures IsSpace(c) ==> c == ' ' {
      WordCharNotSpace(c);
    }
    JoinSplit(t);
  }

  /** Qualified idempotence: a second pass changes nothing unless the first
      pass's output still holds a match for line 13. */
  lemma PreprocessIdempotentUnlessUrl(text: seq<char>, stop: set<seq<char>>)
    requires forall i | 0 <= i < |Preprocess(text, stop)| :: !UrlAt(Preprocess(text, stop)[i..])
    ensures Preprocess(Preprocess(text, stop), stop) == Preprocess(text, stop)
  {
    PreprocessFixedPoint(Preprocess(text, stop), stop);
  }
}
