# A verified model of the sentiment service's text cleaner

The service runs one text-cleaning function, `preprocess` (preprocessor.py,
lines 11-37), before each text reaches the sentiment classifier. It is a pure
pipeline of eight steps:

1. `re.sub(r'http\S+|www\S+|https\S+', '', text)` deletes URL-like runs (line 13).
2. `@\w+` deletes mentions (line 16).
3. `#\w+` deletes hashtags (line 19).
4. `[^A-Za-z0-9\s]+` deletes every character that is not an ASCII letter, an ASCII digit or whitespace (line 22).
5. `word_tokenize` splits the text into tokens (line 25).
6. Every token is lowercased (line 28).
7. English stopwords are dropped (lines 31-32).
8. The remaining tokens are joined with single spaces (line 35).

The model is a set of Dafny functions over `seq<char>`, plus lemmas about them.

- `chars.dfy` (module `Chars`): the character classes and the lowercasing.
  - `IsSpace` is Python's `\s`, written out in full: the ASCII table and the Unicode spaces.
  - `IsWordChar` is `\w` restricted to ASCII.
  - `LeadingRun` is the extent of a greedy `\S+` or `\w+`.
- `seqs.dfy` (module `Seqs`): order-preserving filtering (`Filter`), subsequences and flattening.
- `regex_steps.dfy` (module `RegexSteps`): the four `re.sub` calls.
  - Each is written as the scan `re.sub` performs. At each position it tries the pattern.
  - On a match, it deletes the greedy match and resumes after it.
  - Otherwise it keeps one character and moves on.
  - The third alternative, `https\S+`, is subsumed by `http\S+` (`HttpsAlternativeSubsumed`).
- `tokens.dfy` (module `Tokens`): the tokenizer contract, the whitespace split and `' '.join`.
  - `IsTokenization` is the tokenizer contract: tokens are non-empty, contain no whitespace, and concatenate to the input with its whitespace removed.
  - `SplitWords` is the whitespace split. It meets that contract and stands for `word_tokenize` in `Preprocess`.
  - The output-shape results are also proved for every tokenizer that meets the contract (`AnyTokenizerShape`).
- `preprocessor.dfy` (module `Preprocessor`): the pipeline `Preprocess(text, stop)` and its properties.
  - The English stopword list is the parameter `stop`.
- `examples.dfy` (module `PreprocessorExamples`): concrete runs derived from the general lemmas.
  - The sample request text "I love this! https://x.com #great @bob" gives "love".
  - Two inputs on which a second pass changes the result.

One might expect a second pass of `preprocess` to change nothing on text with no URL, mention, hashtag or punctuation. The code does not behave that way, and the model follows the code:

- "HTTPabc" escapes the case-sensitive line 13. Line 28 then lowercases it to "httpabc", which a second pass deletes as a URL.
- "h.ttpabc" becomes "httpabc" at line 22, after line 13 has run.

What holds instead is a qualified fixed point, `PreprocessFixedPoint`: output-shaped text with nothing for line 13 to match is returned unchanged.

## Model

| member | source | states |
|---|---|---|
| Chars.IsSpace | preprocessor.py:13-22 | the class `\s` of lines 13 and 22: the ASCII whitespace table (tab to carriage return, the separators U+001C-U+001F, space) and the Unicode spaces (definition, no contract) |
| Chars.IsWordChar | preprocessor.py:16-19 | the class `\w` of lines 16 and 19, restricted to ASCII: letters, digits and `_` (definition, no contract) |
| Chars.LeadingRun | preprocessor.py:13 | the length of the greedy `\S+` / `\w+`: every character before it satisfies the class; the character right after it, if any, does not |
| Chars.LowerChar | preprocessor.py:28 | `str.lower` on one character: an upper-case letter `A`-`Z` becomes the lowercase letter at the same place in the alphabet; every other character is unchanged; no upper-case letter remains; an ASCII letter or digit becomes a lowercase letter or digit; whitespace is preserved |
| Chars.LowerWord | preprocessor.py:28 | `word.lower()`: same length, and each character is lowercased as `LowerChar` says, position by position; no upper-case letter remains; a word without one is unchanged; an ASCII alphanumeric word becomes lowercase alphanumeric |
| Chars.LowerWordIdempotent | preprocessor.py:28 | lowercasing twice is lowercasing once |
| Seqs.Filter | preprocessor.py:32 | the list comprehension's result is a subsequence of the input and holds only elements that pass |
| Seqs.FilterCounts | preprocessor.py:32 | every element that passes is kept exactly as often as it occurs; every other element is dropped entirely |
| Seqs.InFilter | preprocessor.py:32 | an element is in the result exactly when it is in the input and passes |
| Seqs.FilterAppend | preprocessor.py:32 | filtering distributes over concatenation |
| RegexSteps.HttpsAlternativeSubsumed | preprocessor.py:13 | whenever `https\S+` matches, `http\S+` matches too, so the third alternative never decides a match |
| RegexSteps.UrlAt | preprocessor.py:13 | the pattern matches at the front: "http" or "www" (or "https") followed by at least one non-whitespace character, case-sensitively (definition, no contract) |
| RegexSteps.StripUrls | preprocessor.py:13 | the URL step only deletes: its result is a subsequence of its input |
| RegexSteps.StripUrlsKeepsSpaces | preprocessor.py:13 | the URL step deletes no whitespace character |
| RegexSteps.StripUrlsHead | preprocessor.py:13 | a deletion always stops at whitespace or the end, so the first word left is a prefix of the input's first word |
| RegexSteps.StripUrlsLeavesNoUrl | preprocessor.py:13 | afterwards, "http" or "www" followed by a non-whitespace character occurs nowhere |
| RegexSteps.StripUrlsKeep | preprocessor.py:13 | where no alternative matches, the scan keeps the character and goes on after it |
| RegexSteps.StripUrlsKeepsPrefix | preprocessor.py:13 | a stretch of text at none of whose positions an alternative matches is kept character for character, and the scan goes on with what follows it |
| RegexSteps.StripUrlsDeletesWord | preprocessor.py:13 | a whitespace-free run at which a match starts, ended by whitespace or the end, is deleted whole, and the scan goes on right after it |
| RegexSteps.StripUrlsCutsWord | preprocessor.py:13 | in a whitespace-free word, the part before the first position where a match starts is kept and everything from there on is deleted |
| RegexSteps.StripUrlsNoMatch | preprocessor.py:13 | a text in which no alternative matches is left unchanged |
| RegexSteps.UrlAtFirstLetters | preprocessor.py:13 | every match starts with "ht" or "ww", so matching is case-sensitive |
| RegexSteps.NoUrlWithoutPrefixes | preprocessor.py:13 | without "ht" and "ww", no alternative matches anywhere |
| RegexSteps.StripUrlsWholeWord | preprocessor.py:13 | a whitespace-free word at which a URL match starts is deleted entirely |
| RegexSteps.UrlAtAround | preprocessor.py:13 | appending whitespace and more text does not change whether, or how far, a match at the front extends |
| RegexSteps.StripUrlsAround | preprocessor.py:13 | no URL match crosses whitespace: the two sides of a whitespace character are processed independently, and the character is kept |
| RegexSteps.TagAt | preprocessor.py:16-19 | the pattern `@\w+` / `#\w+` matches at the front: the sigil followed by a word character (definition, no contract) |
| RegexSteps.StripTagged | preprocessor.py:16-19 | the mention / hashtag step only deletes: its result is a subsequence of its input |
| RegexSteps.StripMentions | preprocessor.py:16 | afterwards, no "@" followed by a word character is left |
| RegexSteps.StripHashtags | preprocessor.py:19 | afterwards, no "#" followed by a word character is left |
| RegexSteps.StripTaggedKeepsSpaces | preprocessor.py:16-19 | the mention / hashtag steps delete no whitespace |
| RegexSteps.StripTaggedHead | preprocessor.py:16-19 | the first character left is the input's own first character or a non-word character, so no new match is formed at the front |
| RegexSteps.StripTaggedLeavesNoTag | preprocessor.py:16-19 | afterwards, the sigil followed by a word character occurs nowhere |
| RegexSteps.StripTaggedKeepsBareSigil | preprocessor.py:16-19 | a sigil not followed by a word character is not deleted; it stays for line 22 |
| RegexSteps.StripTaggedKeep | preprocessor.py:16-19 | where the pattern does not match, the scan keeps the character and goes on after it |
| RegexSteps.StripTaggedKeepsPrefix | preprocessor.py:16-19 | a stretch of text at none of whose positions the pattern matches is kept character for character, and the scan goes on with what follows it |
| RegexSteps.StripTaggedDeletesWord | preprocessor.py:16-19 | a sigil and the whole run of word characters after it are deleted together, and the scan goes on with what follows the run |
| RegexSteps.StripTaggedNoMatch | preprocessor.py:16-19 | a text in which the pattern matches nowhere is unchanged |
| RegexSteps.NoTagWithoutSigil | preprocessor.py:16-19 | without the sigil the pattern matches nowhere |
| RegexSteps.StripTaggedNoSigil | preprocessor.py:16-19 | a text without the sigil is unchanged |
| RegexSteps.StripTaggedWholeWord | preprocessor.py:16-19 | a sigil followed only by word characters is deleted together with the whole word |
| RegexSteps.StripTaggedAround | preprocessor.py:16-19 | no mention or hashtag match crosses whitespace |
| RegexSteps.StripPunctuation | preprocessor.py:22 | only ASCII letters, digits and whitespace remain |
| RegexSteps.StripPunctuationKeeps | preprocessor.py:22 | each ASCII letter, digit and whitespace character is kept exactly as often as it occurs, and every other character is deleted (as multisets); the result is a subsequence of the input, so order is kept; the whitespace is kept exactly |
| RegexSteps.StripPunctuationGap | preprocessor.py:22 | a run of punctuation between kept parts is deleted, joining them |
| RegexSteps.StripPunctuationAround | preprocessor.py:22 | the punctuation step keeps whitespace and works independently on either side of it |
| Tokens.IsTokenization | preprocessor.py:25 | the tokenizer contract: every token is non-empty and holds no whitespace, and the tokens concatenated are the input with its whitespace removed (definition, no contract) |
| Tokens.SplitWords | preprocessor.py:25 | the whitespace split meets the tokenizer contract: non-empty tokens without whitespace whose concatenation is the input minus its whitespace |
| Tokens.SplitWordsAround | preprocessor.py:25 | splitting at a whitespace character splits the two sides independently |
| Tokens.Join | preprocessor.py:35 | `' '.join`: the words in order, one space between each two (definition, no contract) |
| Tokens.JoinLength | preprocessor.py:35 | the joined text holds the words' characters plus one space per gap between words |
| Tokens.JoinShape | preprocessor.py:35 | joining non-empty words without spaces gives no leading or trailing space and never two spaces in a row; the result is empty exactly when there are no words |
| Tokens.JoinAlphabet | preprocessor.py:35 | every character of the joined text is a space or comes from a word |
| Tokens.SplitJoin | preprocessor.py:25-35 | splitting undoes joining |
| Tokens.JoinSplit | preprocessor.py:25-35 | joining undoes splitting, on single-spaced text whose only whitespace is the plain space |
| Tokens.JoinAppend | preprocessor.py:35 | joining two non-empty word lists puts one space between their joins |
| Tokens.JoinGlue | preprocessor.py:35 | joining two word lists glues their joins, an empty side contributing nothing |
| Preprocessor.Clean | preprocessor.py:13-22 | after the four deletions, only ASCII letters, digits and whitespace remain |
| Preprocessor.Lowered | preprocessor.py:28 | the list comprehension of line 28: one lowercased token per token, as many as there are tokens |
| Preprocessor.DropStopwords | preprocessor.py:31-32 | the survivors are a subsequence of the words; a word survives exactly when it is not a stopword, and each survivor as often as it occurs |
| Preprocessor.Finish | preprocessor.py:28-35 | lines 28-35 one after the other on a token list (definition, no contract; see `FinishShape`, `FinishEmpty`, `FinishAppend`) |
| Preprocessor.Preprocess | preprocessor.py:11-37 | the result holds only lowercase ASCII letters, digits and spaces; no leading or trailing space and no double space; none of its words is a stopword |
| Preprocessor.TokensOfCleanText | preprocessor.py:22-25 | any admissible tokenization of the cleaned text consists of non-empty ASCII alphanumeric tokens |
| Preprocessor.KeptWords | preprocessor.py:28-32 | the surviving words are non-empty, lowercase and alphanumeric |
| Preprocessor.FinishShape | preprocessor.py:28-35 | the output alphabet and spacing hold, and splitting the output gives back the lowercased non-stopword tokens in order |
| Preprocessor.FinishEmpty | preprocessor.py:28-35 | lines 28-35 give the empty text exactly when every token lowercases to a stopword |
| Preprocessor.AnyTokenizerShape | preprocessor.py:25-35 | the output alphabet, spacing, word sequence and absence of stopwords hold for every tokenizer meeting the contract, e.g. one that splits "cannot" into "can" and "not" |
| Preprocessor.PreprocessWords | preprocessor.py:25-35 | the output's words are the lowercased tokens, in their original order, with exactly the stopwords dropped |
| Preprocessor.PreprocessEmptyExactly | preprocessor.py:25-35 | the result is empty exactly when every token lowercases to a stopword |
| Preprocessor.PreprocessEmptyInput | preprocessor.py:11-37 | `preprocess("") == ""` |
| Preprocessor.CleanUnchanged | preprocessor.py:13-22 | text of ASCII letters, digits and whitespace with nothing for line 13 to match passes the four deletions unchanged |
| Preprocessor.CleanAround | preprocessor.py:13-22 | no deletion crosses whitespace: both sides are cleaned independently, and the whitespace character is kept |
| Preprocessor.DropStopwordsAppend | preprocessor.py:32 | stopword removal distributes over concatenation |
| Preprocessor.FinishAppend | preprocessor.py:28-35 | lines 28-35 on two token lists in a row give the two texts joined by one space, an empty side contributing nothing |
| Preprocessor.PreprocessWordByWord | preprocessor.py:11-37 | the whole function works word by word: the result for two texts separated by whitespace is their two results joined by one space, an empty result contributing nothing |
| Preprocessor.PreprocessOfEmptyClean | preprocessor.py:25-37 | a text that cleans to nothing gives the empty result |
| Preprocessor.PreprocessOneWord | preprocessor.py:25-37 | a text that cleans to one word gives that word lowercased, or nothing if the lowercased word is a stopword |
| Preprocessor.PreprocessSingleWord | preprocessor.py:11-37 | a whitespace-free word in which none of the patterns of lines 13-19 matches at any position loses exactly what line 22 deletes, is lowercased, and is kept unless it is then empty or a stopword |
| Preprocessor.PreprocessPlainWord | preprocessor.py:11-37 | an ASCII alphanumeric word without "ht" and "ww" is only lowercased, and dropped if it is a stopword |
| Preprocessor.PreprocessTaggedWord | preprocessor.py:11-37 | a word made of a sigil (`@` or `#`) and one or more word characters contributes nothing, including when line 13 first cuts a URL off its end, as in "#http2024" |
| Preprocessor.TaggedPrefixCleansAway | preprocessor.py:16-22 | a sigil followed by zero or more word characters is deleted by lines 16-22: with word characters by line 16 or 19, alone by line 22 |
| Preprocessor.PreprocessUrlWord | preprocessor.py:11-37 | a whitespace-free word at which line 13 matches contributes nothing |
| Preprocessor.LoweredFixedPoint | preprocessor.py:28 | lowercasing leaves the words of lowercase text unchanged |
| Preprocessor.PreprocessFixedPoint | preprocessor.py:11-37 | text that already has the output's shape (lowercase alphanumeric non-stopword words, single spaces, no "http"/"www" followed by a non-space character) is returned unchanged |
| Preprocessor.PreprocessIdempotentUnlessUrl | preprocessor.py:11-37 | a second pass changes nothing unless the first pass's output still holds a URL match |
| PreprocessorExamples.UppercaseUrlNotIdempotent | preprocessor.py:13-28 | "HTTPabc" gives "httpabc", and a second pass gives "" |
| PreprocessorExamples.NothingToMatch | preprocessor.py:13-19 | without "ht", "ww", `@` and `#`, none of the patterns of lines 13-19 matches anywhere |
| PreprocessorExamples.DottedFirstPass | preprocessor.py:13-28 | "h.ttpabc" gives "httpabc" |
| PreprocessorExamples.DottedUrlNotIdempotent | preprocessor.py:13-28 | "h.ttpabc" gives "httpabc", and a second pass gives "" |
| PreprocessorExamples.SampleRequest | preprocessor.py:11-37 | with "i" and "this" as stopwords and "love" not, "I love this! https://x.com #great @bob" gives "love" |

## Left out

- Unicode `\w`: `IsWordChar` covers only ASCII letters, digits and `_`. Python's `\w` also matches non-ASCII letters, so "@été" is deleted whole by line 16, while the model deletes only the "@" (at line 22) and keeps "t".
- Non-ASCII lowercasing: `LowerChar` lowercases only `A`-`Z`. This is exact on every input line 28 receives here, because after line 22 tokens hold only ASCII letters and digits.
- `word_tokenize`: the NLTK tokenizer is modelled by its contract (`IsTokenization`). `Preprocess` uses the whitespace split, which meets the contract. NLTK additionally splits a few contractions (such as "cannot"); only the output-shape results (`AnyTokenizerShape`) cover that, while the word-sequence, fixed-point and example results assume the whitespace split.
- The English stopword list is a parameter, not transcribed; the examples state only which of their words are stopwords.
- `nltk.download` at import time (preprocessor.py lines 7-9) is network I/O and is not modelled.
- The `re.MULTILINE` flag on line 13 has no effect on a pattern without `^` or `$`, and is not modelled.
- Python strings may hold lone surrogate code points; Dafny `char` values are Unicode scalar values, so such strings are outside the model.
- main.py (the HTTP endpoint and the Spark map/collect) and sentiment_analyzer.py (the transformer model, softmax and argmax) are not part of this model.
- PreprocessorExamples.SampleRequest: the text is written as its words joined by `" "`, not as one string literal; the two denote the same string.
