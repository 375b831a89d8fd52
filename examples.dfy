/**
  Concrete runs of `preprocess` (preprocessor.py lines 11-37), derived from
  the general lemmas: the sample request text, and the input on which a
  second pass is not idempotent.
*/
module PreprocessorExamples {
  import opened Chars
  import opened Seqs
  import opened RegexSteps
  import opened Tokens
  import opened Preprocessor

  /** The letters of "HTTPabc", and what line 28 makes of them. */
  lemma UppercaseWordFacts()
    ensures LacksUrlPrefix("HTTPabc") && forall c <- "HTTPabc" :: IsAsciiAlnum(c)
    ensures LowerWord("HTTPabc") == "httpabc"
  {
    var l := LowerWord("HTTPabc");
    assert l[0] == 'h' && l[1] == 't' && l[2] == 't' && l[3] == 'p';
    assert l[4] == 'a' && l[5] == 'b' && l[6] == 'c';
  }

  /** Line 13 is case-sensitive: "HTTPabc" passes lines 13-22 unchanged and
      comes out of line 28 as "httpabc". */
  lemma UppercaseFirstPass(stop: set<seq<char>>)
    requires "httpabc" !in stop
    ensures Preprocess("HTTPabc", stop) == "httpabc"
  {
    UppercaseWordFacts();
    PreprocessPlainWord("HTTPabc", stop);
  }

  lemma LowercaseUrlFacts()
    ensures UrlAt("httpabc") && forall c <- "httpabc" :: !IsSpace(c)
  {
    assert "httpabc"[..4] == "http";
  }

  /** "httpabc" is one match of `http\S+`, so line 13 deletes all of it. */
  lemma LowercaseUrlDeleted(stop: set<seq<char>>)
    ensures Preprocess("httpabc", stop) == []
  {
    LowercaseUrlFacts();
    PreprocessUrlWord("httpabc", stop);
  }

  /** Line 13 is case-sensitive and runs before line 28 lowercases, so
      "HTTPabc" survives the first pass as "httpabc", which the second pass
      then deletes as a URL: `preprocess` is not idempotent on text that
      holds no URL, mention, hashtag or punctuation. */
  lemma UppercaseUrlNotIdempotent(stop: set<seq<char>>)
    requires "httpabc" !in stop
    ensures Preprocess("HTTPabc", stop) == "httpabc"
    ensures Preprocess(Preprocess("HTTPabc", stop), stop) == ""
  {
    UppercaseFirstPass(stop);
    LowercaseUrlDeleted(stop);
  }

  /** "h.ttpabc" is "h", the punctuation ".", and "ttpabc", and holds
      neither "ht", "ww" nor a sigil. */
  lemma DottedWordFacts()
    ensures "h.ttpabc" == "h" + "." + "ttpabc" && "h" + "ttpabc" == "httpabc"
    ensures LacksUrlPrefix("h.ttpabc") && '@' !in "h.ttpabc" && '#' !in "h.ttpabc"
    ensures forall c <- "h.ttpabc" :: !IsSpace(c)
    ensures forall c <- "httpabc" :: IsLowerAlnum(c)
    ensures forall c <- "." :: !IsAsciiAlnum(c) && !IsSpace(c)
  {
  }

  /** Line 22 runs after line 13, so deleting the "." of "h.ttpabc" forms
      "httpabc", which only a second pass deletes. */
  lemma DottedUrlNotIdempotent(stop: set<seq<char>>)
    requires "httpabc" !in stop
    ensures Preprocess("h.ttpabc", stop) == "httpabc"
    ensures Preprocess(Preprocess("h.ttpabc", stop), stop) == ""
  {
    DottedFirstPass(stop);
    LowercaseUrlDeleted(stop);
  }

  /** Lines 13-19 find nothing in "h.ttpabc"; line 22 deletes the ".". */
  lemma DottedFirstPass(stop: set<seq<char>>)
    requires "httpabc" !in stop
    ensures Preprocess("h.ttpabc", stop) == "httpabc"
  {
    var s, w := "h.ttpabc", "httpabc";
    DottedWordFacts();
    NothingToMatch(s);
    StripPunctuationGap("h", ".", "ttpabc");
    assert StripPunctuation(s) == w && LowerWord(w) == w;
    PreprocessSingleWord(s, stop);
  }

  /** Without "ht", "ww" and the two sigils none of the patterns of lines
      13-19 matches anywhere. */
  lemma NothingToMatch(s: seq<char>)
    requires LacksUrlPrefix(s) && '@' !in s && '#' !in s
    ensures forall i | 0 <= i < |s| :: !UrlAt(s[i..]) && !TagAt(s[i..], '@') && !TagAt(s[i..], '#')
  {
    NoUrlWithoutPrefixes(s);
    NoTagWithoutSigil(s, '@');
    NoTagWithoutSigil(s, '#');
  }

  /** "I" lowercases to the stopword "i". */
  lemma SampleWordI(stop: set<seq<char>>)
    requires "i" in stop
    ensures Preprocess("I", stop) == []
  {
    assert LacksUrlPrefix("I");
    assert LowerWord("I") == "i" by {
      assert LowerWord("I")[0] == 'i';
    }
    PreprocessPlainWord("I", stop);
  }

  lemma SampleWordLove(stop: set<seq<char>>)
    requires "love" !in stop
    ensures Preprocess("love", stop) == "love"
  {
    assert LacksUrlPrefix("love") && forall c <- "love" :: IsLowerAlnum(c);
    PreprocessPlainWord("love", stop);
  }

  lemma ThisWordFacts()
    ensures "this!" == "this" + "!" + "" && "this" + "" == "this"
    ensures LacksUrlPrefix("this!") && '@' !in "this!" && '#' !in "this!"
    ensures forall c <- "this!" :: !IsSpace(c)
    ensures forall c <- "this" :: IsLowerAlnum(c)
    ensures forall c <- "!" :: !IsAsciiAlnum(c) && !IsSpace(c)
  {
  }

  /** "this!" cleans to the stopword "this": line 22 deletes the "!". */
  lemma SampleWordThis(stop: set<seq<char>>)
    requires "this" in stop
    ensures Preprocess("this!", stop) == []
  {
    var s, w := "this!", "this";
    ThisWordFacts();
    NothingToMatch(s);
    StripPunctuationGap(w, "!", "");
    assert StripPunctuation(s) == w && LowerWord(w) == w;
    PreprocessSingleWord(s, stop);
  }

  lemma SampleTagFacts()
    ensures "https://x.com"[..4] == "http" && forall c <- "https://x.com" :: !IsSpace(c)
    ensures forall i | 1 <= i < 6 :: IsWordChar("#great"[i])
    ensures forall i | 1 <= i < 4 :: IsWordChar("@bob"[i])
  {
  }

  /** Gluing an empty result in front changes nothing. */
  lemma GlueAfterEmpty(a: seq<char>, c: char, b: seq<char>, stop: set<seq<char>>)
    requires IsSpace(c) && Preprocess(a, stop) == []
    ensures Preprocess(a + [c] + b, stop) == Preprocess(b, stop)
  {
    PreprocessWordByWord(a, c, b, stop);
  }

  /** The last three words of the sample text give nothing: a URL, a
      hashtag and a mention. */
  lemma SampleTail(stop: set<seq<char>>)
    ensures Preprocess("https://x.com" + " " + ("#great" + " " + "@bob"), stop) == []
  {
    SampleTagFacts();
    PreprocessUrlWord("https://x.com", stop);
    PreprocessTaggedWord("#great", '#', stop);
    PreprocessTaggedWord("@bob", '@', stop);
    GlueAfterEmpty("#great", ' ', "@bob", stop);
    GlueAfterEmpty("https://x.com", ' ', "#great" + " " + "@bob", stop);
  }

  /** From "this!" on, nothing is left: "this" is a stopword. */
  lemma SampleFromThis(stop: set<seq<char>>)
    requires "this" in stop
    ensures Preprocess("this!" + " " + ("https://x.com" + " " + ("#great" + " " + "@bob")), stop) == []
  {
    SampleTail(stop);
    SampleWordThis(stop);
    GlueAfterEmpty("this!", ' ', "https://x.com" + " " + ("#great" + " " + "@bob"), stop);
  }

  /** From "love" on, only "love" is left. */
  lemma SampleFromLove(stop: set<seq<char>>)
    requires "this" in stop && "love" !in stop
    ensures Preprocess("love" + " " + ("this!" + " " +
      ("https://x.com" + " " + ("#great" + " " + "@bob"))), stop) == "love"
  {
    SampleFromThis(stop);
    SampleWordLove(stop);
    PreprocessWordByWord("love", ' ', "this!" + " " + ("https://x.com" + " " + ("#great" + " " + "@bob")), stop);
  }

  /** The sample request text "I love this! https://x.com #great @bob",
      written word by word: with "i" and "this" stopwords and "love" not,
      only "love" is left. */
  lemma SampleRequest(stop: set<seq<char>>)
    requires "i" in stop && "this" in stop && "love" !in stop
    ensures Preprocess("I" + " " + ("love" + " " + ("this!" + " " +
      ("https://x.com" + " " + ("#great" + " " + "@bob")))), stop) == "love"
  {
    SampleFromLove(stop);
    SampleWordI(stop);
    GlueAfterEmpty("I", ' ', "love" + " " + ("this!" + " " +
      ("https://x.com" + " " + ("#great" + " " + "@bob"))), stop);
  }
}
