/** Tokenisation used by the vectoriser: `doc.split()` followed by
    `word.lower()` on every token (classes_sem.py and count_vectorizer.py).

    `Split` is characterised completely by three lemmas: a run of
    whitespace yields no token (`SplitSpaces`), a run without whitespace
    yields itself (`SplitWord`), and a whitespace character separates the
    tokens on its two sides (`SplitAtSpace`). */
module Text {

  /** Python's `str.isspace`: the characters `str.split()` splits on. */
  predicate IsSpace(c: char)
  {
    var n := c as int;
    (9 <= n <= 13) || (28 <= n <= 32) || n == 0x85 || n == 0xA0 || n == 0x1680
    || (0x2000 <= n <= 0x200A) || n == 0x2028 || n == 0x2029 || n == 0x202F
    || n == 0x205F || n == 0x3000
  }

  /** A token: non-empty and free of whitespace. */
  predicate IsWord(w: string)
  {
    |w| > 0 && forall i :: 0 <= i < |w| ==> !IsSpace(w[i])
  }

  /** Only whitespace (possibly nothing). */
  predicate AllSpace(s: string)
  {
    forall i :: 0 <= i < |s| ==> IsSpace(s[i])
  }

  /** Python's `str.split()` with no argument: the maximal runs of
      non-whitespace characters, in order. */
  function Split(s: string): (ws: seq<string>)
    ensures |s| > 0 && !IsSpace(s[|s|-1]) ==> |ws| > 0
  {
    if |s| == 0 then []
    else
      var ws := Split(s[..|s|-1]);
      var c := s[|s|-1];
      if IsSpace(c) then ws
      else if |s| > 1 && !IsSpace(s[|s|-2]) then ws[..|ws|-1] + [ws[|ws|-1] + [c]]
      else ws + [[c]]
  }

  /** Every token is a non-empty run without whitespace. */
  lemma {:induction false} SplitWords(s: string)
    ensures forall k :: 0 <= k < |Split(s)| ==> IsWord(Split(s)[k])
    decreases |s|
  {
    if |s| > 0 {
      SplitWords(s[..|s|-1]);
    }
  }

  lemma {:induction false} SplitSpaces(s: string)
    requires AllSpace(s)
    ensures Split(s) == []
    decreases |s|
  {
    if |s| > 0 {
      SplitSpaces(s[..|s|-1]);
    }
  }

  lemma {:induction false} SplitWord(w: string)
    requires IsWord(w)
    ensures Split(w) == [w]
    decreases |w|
  {
    var n := |w| - 1;
    if n == 0 {
      assert w[..n] == [];
      assert w == [w[0]];
    } else {
      assert IsWord(w[..n]);
      SplitWord(w[..n]);
      assert !IsSpace(w[n-1]) && !IsSpace(w[n]);
      assert w[..n] + [w[n]] == w;
    }
  }

  /** One step of `Split`: the effect of appending a character. */
  lemma SplitSnoc(s: string, c: char)
    ensures Split(s + [c]) ==
      if IsSpace(c) then Split(s)
      else if |s| > 0 && !IsSpace(s[|s|-1]) then
        Split(s)[..|Split(s)|-1] + [Split(s)[|Split(s)|-1] + [c]]
      else Split(s) + [[c]]
  {
    assert (s + [c])[..|s|] == s;
  }

  /** Extending the last token of a split commutes with prepending tokens. */
  lemma ExtendLast(x: seq<string>, u: seq<string>, d: char)
    requires |u| > 0
    ensures (x + u)[..|x + u| - 1] + [(x + u)[|x + u| - 1] + [d]]
         == x + (u[..|u|-1] + [u[|u|-1] + [d]])
  {
  }

  /** A whitespace character separates the tokens before it from those after it. */
  lemma {:induction false} SplitAtSpace(a: string, c: char, b: string)
    requires IsSpace(c)
    ensures Split(a + [c] + b) == Split(a) + Split(b)
    decreases |b|
  {
    if |b| == 0 {
      assert a + [c] + b == a + [c];
      SplitSnoc(a, c);
    } else {
      var b' := b[..|b|-1];
      var d := b[|b|-1];
      var s' := a + [c] + b';
      assert a + [c] + b == s' + [d];
      assert b == b' + [d];
      SplitAtSpace(a, c, b');
      SplitSnoc(s', d);
      SplitSnoc(b', d);
      if IsSpace(d) {
      } else if |b'| == 0 {
        assert s'[|s'|-1] == c;
      } else {
        assert s'[|s'|-1] == b'[|b'|-1];
        if !IsSpace(b'[|b'|-1]) {
          ExtendLast(Split(a), Split(b'), d);
        }
      }
    }
  }

  /** `' '.join(ws)`: the words separated by single spaces. */
  function JoinWords(ws: seq<string>): (s: string)
    ensures |ws| == 0 ==> s == ""
  {
    if |ws| == 0 then ""
    else if |ws| == 1 then ws[0]
    else JoinWords(ws[..|ws|-1]) + " " + ws[|ws|-1]
  }

  /** Appending a space and a word to a string appends the word to its tokens. */
  lemma SplitSpaceWord(j: string, w: string)
    requires IsWord(w)
    ensures Split(j + " " + w) == Split(j) + [w]
  {
    SplitWord(w);
    SplitAtSpace(j, ' ', w);
  }

  /** Splitting undoes joining tokens with single spaces. */
  lemma {:induction false} SplitJoinWords(ws: seq<string>)
    requires forall k :: 0 <= k < |ws| ==> IsWord(ws[k])
    ensures Split(JoinWords(ws)) == ws
    decreases |ws|
  {
    if |ws| == 1 {
      SplitWord(ws[0]);
    } else if |ws| > 1 {
      var p := ws[..|ws|-1];
      var w := ws[|ws|-1];
      SplitJoinWords(p);
      SplitSpaceWord(JoinWords(p), w);
      assert p + [w] == ws;
    }
  }

  /** Total number of characters in a sequence of strings. */
  function TotalLength(ws: seq<string>): nat
  {
    if |ws| == 0 then 0 else TotalLength(ws[..|ws|-1]) + |ws[|ws|-1]|
  }

  /** Joining `n > 0` strings adds exactly `n - 1` separators. */
  lemma {:induction false} JoinWordsLength(ws: seq<string>)
    requires |ws| > 0
    ensures |JoinWords(ws)| == TotalLength(ws) + |ws| - 1
    decreases |ws|
  {
    if |ws| == 1 {
      assert ws[..0] == [];
    } else {
      JoinWordsLength(ws[..|ws|-1]);
    }
  }

  /** Joining two non-empty lists is joining each and putting one space between. */
  lemma {:induction false} JoinWordsAppend(x: seq<string>, y: seq<string>)
    requires |x| > 0 && |y| > 0
    ensures JoinWords(x + y) == JoinWords(x) + " " + JoinWords(y)
    decreases |y|
  {
    var xy := x + y;
    if |y| == 1 {
      assert xy[..|xy|-1] == x;
    } else {
      var p := y[..|y|-1];
      assert xy[..|xy|-1] == x + p;
      JoinWordsAppend(x, p);
    }
  }

  /** Python's `str.lower()` on one character, for the ASCII letters. */
  function LowerChar(c: char): (l: char)
    ensures 'A' <= c <= 'Z' ==> l as int == c as int + 32
    ensures !('A' <= c <= 'Z') ==> l == c
  {
    if 'A' <= c <= 'Z' then (c as int + 32) as char else c
  }

  function Lower(s: string): (l: string)
    ensures |l| == |s|
    ensures forall i :: 0 <= i < |s| ==> l[i] == LowerChar(s[i])
  {
    seq(|s|, i requires 0 <= i < |s| => LowerChar(s[i]))
  }

  /** What `str.lower()` promises on this alphabet: no capital is left, a
      second lowercasing changes nothing, a character is a lowercase letter
      afterwards exactly when it was a letter before, and whitespace stays
      whitespace and nothing else becomes whitespace. */
  lemma LowerFacts(s: string)
    ensures forall i :: 0 <= i < |Lower(s)| ==> !('A' <= Lower(s)[i] <= 'Z')
    ensures Lower(Lower(s)) == Lower(s)
    ensures forall i :: 0 <= i < |s| ==>
      ('a' <= Lower(s)[i] <= 'z' <==> 'a' <= s[i] <= 'z' || 'A' <= s[i] <= 'Z')
    ensures forall i :: 0 <= i < |s| ==> (IsSpace(Lower(s)[i]) <==> IsSpace(s[i]))
  {
  }

  /** Lowercasing never produces whitespace, so a token stays a token. */
  lemma LowerWord(w: string)
    requires IsWord(w)
    ensures IsWord(Lower(w))
  {
  }

  /** The tokens of one document: `[word.lower() for word in doc.split()]`. */
  function Tokens(doc: string): (ts: seq<string>)
    ensures |ts| == |Split(doc)|
  {
    var ws := Split(doc);
    seq(|ws|, k requires 0 <= k < |ws| => Lower(ws[k]))
  }

  /** Every token is a lowercased whitespace-free non-empty word. */
  lemma TokensAreWords(doc: string)
    ensures forall k :: 0 <= k < |Tokens(doc)| ==>
      Tokens(doc)[k] == Lower(Split(doc)[k]) && IsWord(Tokens(doc)[k])
  {
    SplitWords(doc);
  }

  /** The tokens of a corpus, documents in order and tokens in order within each. */
  function CorpusTokens(docs: seq<string>): seq<string>
  {
    if |docs| == 0 then [] else CorpusTokens(docs[..|docs|-1]) + Tokens(docs[|docs|-1])
  }

  /** A token occurs in the corpus exactly when it occurs in one of its documents. */
  lemma {:induction false} InCorpusTokens(docs: seq<string>, w: string)
    ensures w in CorpusTokens(docs) <==> exists d :: 0 <= d < |docs| && w in Tokens(docs[d])
    decreases |docs|
  {
    if |docs| > 0 {
      var p := docs[..|docs|-1];
      InCorpusTokens(p, w);
      if w in CorpusTokens(p) {
        var d :| 0 <= d < |p| && w in Tokens(p[d]);
        assert docs[d] == p[d];
      }
      if exists d :: 0 <= d < |docs| && w in Tokens(docs[d]) {
        var d :| 0 <= d < |docs| && w in Tokens(docs[d]);
        if d < |p| {
          assert docs[d] == p[d];
        }
      }
    }
  }
}
