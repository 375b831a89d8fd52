/**
  Tokenizing (preprocessor.py line 25) and joining (line 35).

  `word_tokenize` is modelled by its contract, `IsTokenization`: every token
  is non-empty and holds no whitespace, and the tokens, concatenated, are the
  input with its whitespace removed. `SplitWords`, the plain whitespace split,
  meets that contract and is the tokenizer the pipeline uses.
*/
module Tokens {
  import opened Chars
  import opened Seqs

  predicate IsToken(t: seq<char>) {
    t != [] && forall c <- t :: !IsSpace(c)
  }

  /** `toks` is an admissible tokenization of `s`. */
  predicate IsTokenization(s: seq<char>, toks: seq<seq<char>>) {
    (forall t <- toks :: IsToken(t)) && Concat(toks) == Filter(s, NotSpace)
  }

  /** The maximal whitespace-free runs of `s`, in order (`s.split()`). */
  function SplitWords(s: seq<char>): (toks: seq<seq<char>>)
    ensures IsTokenization(s, toks)
    decreases |s|
  {
    if s == [] then []
    else if IsSpace(s[0]) then
      assert s == [s[0]] + s[1..];
      FilterCons(s[0], s[1..], NotSpace);
      SplitWords(s[1..])
    else
      var n := LeadingRun(s, NotSpace);
      var rest := SplitWords(s[n..]);
      var toks := [s[..n]] + rest;
      assert toks[0] == s[..n] && toks[1..] == rest;
      assert s == s[..n] + s[n..];
      FilterAppend(s[..n], s[n..], NotSpace);
      FilterKeepsAll(s[..n], NotSpace);
      toks
  }

  /** `' '.join(ws)`. */
  function Join(ws: seq<seq<char>>): seq<char>
    decreases |ws|
  {
    if ws == [] then []
    else if |ws| == 1 then ws[0]
    else ws[0] + [' '] + Join(ws[1..])
  }

  /** The joined text holds the words' characters and one space for each
      gap between two words. */
  lemma {:induction false} JoinLength(ws: seq<seq<char>>)
    requires ws != []
    ensures |Join(ws)| == |Concat(ws)| + |ws| - 1
    decreases |ws|
  {
    assert Concat(ws) == ws[0] + Concat(ws[1..]);
    if |ws| == 1 {
      assert ws[1..] == [];
    } else {
      JoinLength(ws[1..]);
    }
  }

  /** No leading or trailing space and never two spaces in a row. */
  predicate SingleSpaced(s: seq<char>) {
    s == [] ||
    (s[0] != ' ' && s[|s| - 1] != ' ' &&
     forall i | 0 <= i < |s| - 1 :: !(s[i] == ' ' && s[i + 1] == ' '))
  }

  /** Joining non-empty words that hold no space gives a single-spaced text,
      empty exactly when there are no words. */
  lemma {:induction false} JoinShape(ws: seq<seq<char>>)
    requires forall w <- ws :: w != [] && ' ' !in w
    ensures SingleSpaced(Join(ws))
    ensures Join(ws) == [] <==> ws == []
    decreases |ws|
  {
    if ws != [] {
      var w := ws[0];
      assert w in ws;
      if |ws| > 1 {
        var j := Join(ws[1..]);
        assert forall v <- ws[1..] :: v in ws;
        JoinShape(ws[1..]);
        assert ws[1..][0] in ws;
        var s := Join(ws);
        assert s == w + [' '] + j;
        forall i | 0 <= i < |s| - 1
          ensures !(s[i] == ' ' && s[i + 1] == ' ')
        {
          if i < |w| {
            assert s[i] == w[i];
          } else if i > |w| {
            assert s[i] == j[i - |w| - 1] && s[i + 1] == j[i - |w|];
          }
        }
      } else {
        assert w[0] in w && w[|w| - 1] in w;
      }
    }
  }

  /** Every character of the joined text is a space or comes from a word. */
  lemma {:induction false} JoinAlphabet(ws: seq<seq<char>>, p: char -> bool)
    requires forall w <- ws, c <- w :: p(c)
    ensures forall c <- Join(ws) :: c == ' ' || p(c)
    decreases |ws|
  {
    if |ws| > 1 {
      assert ws[0] in ws;
      JoinAlphabet(ws[1..], p);
    } else if |ws| == 1 {
      assert ws[0] in ws;
    }
  }

  /** A single token splits into itself. */
  lemma SplitOneToken(w: seq<char>)
    requires IsToken(w)
    ensures SplitWords(w) == [w]
  {
    RunLength(w, NotSpace, |w|);
    assert w[..|w|] == w && w[|w|..] == [];
  }

  /** The first token of `w + [' '] + j` is `w`, and what follows is `j`. */
  lemma SplitFirstToken(w: seq<char>, j: seq<char>)
    requires IsToken(w)
    ensures SplitWords(w + [' '] + j) == [w] + SplitWords(j)
  {
    var s := w + [' '] + j;
    assert s[|w|] == ' ';
    RunLength(s, NotSpace, |w|);
    assert s[..|w|] == w;
    assert s[|w|..] == [' '] + j;
    assert ([' '] + j)[1..] == j;
  }

  /** Splitting undoes joining. */
  lemma {:induction false} SplitJoin(ws: seq<seq<char>>)
    requires forall w <- ws :: IsToken(w)
    ensures SplitWords(Join(ws)) == ws
    decreases |ws|
  {
    if ws != [] {
      assert ws[0] in ws;
      if |ws| == 1 {
        SplitOneToken(ws[0]);
      } else {
        assert forall v <- ws[1..] :: v in ws;
        SplitFirstToken(ws[0], Join(ws[1..]));
        SplitJoin(ws[1..]);
        assert ws == [ws[0]] + ws[1..];
      }
    }
  }

  lemma JoinCons(w: seq<char>, rest: seq<seq<char>>)
    requires rest != []
    ensures Join([w] + rest) == w + [' '] + Join(rest)
  {
    assert ([w] + rest)[1..] == rest;
  }

  /** What follows the first space of a single-spaced text is single-spaced. */
  lemma SingleSpacedAfter(s: seq<char>, k: nat)
    requires SingleSpaced(s) && k < |s| - 1 && s[k] == ' '
    ensures SingleSpaced(s[k + 1..]) && s[k + 1..] != [] && s[k + 1] != ' '
  {
    var t := s[k + 1..];
    forall i | 0 <= i < |t| - 1 ensures !(t[i] == ' ' && t[i + 1] == ' ') {
      assert t[i] == s[k + 1 + i] && t[i + 1] == s[k + 2 + i];
    }
  }

  /** Joining undoes splitting, on a single-spaced text whose only
      whitespace is the plain space. */
  lemma {:induction false} JoinSplit(s: seq<char>)
    requires SingleSpaced(s)
    requires forall c <- s :: IsSpace(c) ==> c == ' '
    ensures Join(SplitWords(s)) == s
    decreases |s|
  {
    if s != [] {
      var n := LeadingRun(s, NotSpace);
      assert n > 0;
      var w := s[..n];
      assert forall c <- w :: !IsSpace(c);
      if n == |s| {
        assert w == s;
        SplitOneToken(s);
      } else {
        assert s[n] == ' ';
        SingleSpacedAfter(s, n);
        var t := s[n + 1..];
        assert s == w + [' '] + t;
        assert forall c <- t :: c in s;
        JoinSplit(t);
        SplitFirstToken(w, t);
        assert SplitWords(t) != [] by {
          assert !IsSpace(t[0]);
        }
        JoinCons(w, SplitWords(t));
      }
    }
  }

  /** Whitespace separates: splitting at a whitespace character splits the
      two sides independently. */
  lemma {:induction false} SplitWordsAround(x: seq<char>, c: char, y: seq<char>)
    requires IsSpace(c)
    ensures SplitWords(x + [c] + y) == SplitWords(x) + SplitWords(y)
    decreases |x|
  {
    var s := x + [c] + y;
    if x == [] {
      assert s == [c] + y && s[1..] == y;
    } else if IsSpace(x[0]) {
      assert s[0] == x[0];
      DropFromAround(x, c, y, 1);
      SplitWordsAround(x[1..], c, y);
    } else {
      var n := LeadingRun(x, NotSpace);
      assert n > 0;
      assert s[n] == if n < |x| then x[n] else c;
      forall i | 0 <= i < n ensures NotSpace(s[i]) {
        assert s[i] == x[i];
      }
      RunLength(s, NotSpace, n);
      assert s[..n] == x[..n];
      DropFromAround(x, c, y, n);
      SplitWordsAround(x[n..], c, y);
    }
  }

  /** Joining non-empty words gives the empty text only for no words. */
  lemma JoinEmpty(ws: seq<seq<char>>)
    requires forall w <- ws :: w != []
    ensures Join(ws) == [] <==> ws == []
  {
    if ws != [] {
      assert ws[0] in ws;
      assert |ws| > 1 ==> Join(ws) == ws[0] + [' '] + Join(ws[1..]);
    }
  }

  /** `' '.join` of `x` and `y`, leaving out an empty side. */
  function Glue(x: seq<char>, y: seq<char>): seq<char> {
    if x == [] then y else if y == [] then x else x + [' '] + y
  }

  lemma {:induction false} JoinAppend(xs: seq<seq<char>>, ys: seq<seq<char>>)
    requires xs != [] && ys != []
    ensures Join(xs + ys) == Join(xs) + [' '] + Join(ys)
    decreases |xs|
  {
    var w := xs[0];
    assert xs + ys == [w] + (xs[1..] + ys);
    if |xs| == 1 {
      JoinCons(w, ys);
    } else {
      JoinCons(w, xs[1..] + ys);
      JoinAppend(xs[1..], ys);
      JoinCons(w, xs[1..]);
      assert [w] + xs[1..] == xs;
    }
  }

  /** Joining two word lists one after the other glues their joins. */
  lemma JoinGlue(xs: seq<seq<char>>, ys: seq<seq<char>>)
    requires forall w <- xs + ys :: w != []
    ensures Join(xs + ys) == Glue(Join(xs), Join(ys))
  {
    assert forall w <- xs :: w in xs + ys;
    assert forall w <- ys :: w in xs + ys;
    JoinEmpty(xs);
    JoinEmpty(ys);
    if xs == [] {
      assert xs + ys == ys;
    } else if ys == [] {
      assert xs + ys == xs;
    } else {
      JoinAppend(xs, ys);
    }
  }
}
