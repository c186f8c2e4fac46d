/** The bag-of-words `CountVectorizer` (classes_sem.py lines 4-79; the
    standalone count_vectorizer.py is the same code without docstrings).

    The Python object is mutable; here its state is the immutable record
    `Vectorizer`, and every method takes the current state (`self`) and
    returns the new one when it changes it. */
module CountVectorizer {
  import opened Seqs
  import opened Text

  /** `vocab_` maps a token to its column; `feature_names_` lists the tokens by column. */
  datatype Vectorizer = Vectorizer(vocab: map<string, int>, featureNames: seq<string>)

  /** The representation invariant: `vocab` and `featureNames` are inverse
      bijections between the known tokens and the dense range [0, n). */
  ghost predicate Valid(v: Vectorizer)
  {
    && |v.vocab| == |v.featureNames|
    && (forall w :: w in v.vocab <==> w in v.featureNames)
    && (forall i :: 0 <= i < |v.featureNames| ==>
          v.featureNames[i] in v.vocab && v.vocab[v.featureNames[i]] == i)
  }

  /** What a valid state promises about one known token: its column is in
      range and names it back. */
  lemma ValidColumn(v: Vectorizer, w: string)
    requires Valid(v) && w in v.vocab
    ensures 0 <= v.vocab[w] < |v.featureNames|
    ensures v.featureNames[v.vocab[w]] == w
  {
    var i :| 0 <= i < |v.featureNames| && v.featureNames[i] == w;
  }

  /** A valid state lists every token once. */
  lemma ValidNoDups(v: Vectorizer)
    requires Valid(v)
    ensures NoDups(v.featureNames)
  {
  }

  /** `__init__`: an empty vocabulary. */
  function New(): (v: Vectorizer)
    ensures Valid(v)
    ensures |v.featureNames| == 0 && |v.vocab| == 0
  {
    Vectorizer(map[], [])
  }

  /** One iteration of the fitting loop: an unseen token gets the column
      `len(vocab_)` and is appended to `feature_names_`. */
  function AddToken(v: Vectorizer, w: string): (r: Vectorizer)
    requires Valid(v)
    ensures Valid(r)
    ensures forall x :: x in r.vocab <==> x in v.vocab || x == w
    ensures w in v.vocab ==> r == v
    ensures w !in v.vocab ==> r.featureNames == v.featureNames + [w]
  {
    if w in v.vocab then v
    else
      var r := Vectorizer(v.vocab[w := |v.vocab|], v.featureNames + [w]);
      assert forall i :: 0 <= i < |v.featureNames| ==> v.featureNames[i] != w;
      r
  }

  /** The fitting loop over a flat token sequence, starting from an empty
      vocabulary. */
  function FitTokens(ws: seq<string>): (v: Vectorizer)
    ensures Valid(v)
    ensures v.featureNames == Dedup(ws)
  {
    if |ws| == 0 then New()
    else AddToken(FitTokens(ws[..|ws|-1]), ws[|ws|-1])
  }

  /** `fit`: discard the current vocabulary and build one from the tokens of
      `docs`, scanning documents in order and tokens in order within each. */
  function Fit(self: Vectorizer, docs: seq<string>): (r: Vectorizer)
    ensures Valid(r)
    ensures r.featureNames == Dedup(CorpusTokens(docs))
    ensures forall w :: w in r.vocab <==> w in CorpusTokens(docs)
  {
    FitTokens(CorpusTokens(docs))
  }

  /** `fit` numbers the tokens in order of first occurrence in the corpus. */
  lemma FitFirstSeenOrder(self: Vectorizer, docs: seq<string>, i: nat, j: nat)
    requires i < j < |Fit(self, docs).featureNames|
    ensures var ws := CorpusTokens(docs);
      var names := Fit(self, docs).featureNames;
      FirstIndex(ws, names[i]) < FirstIndex(ws, names[j])
  {
    DedupFirstSeenOrder(CorpusTokens(docs), i, j);
  }

  /** The vocabulary size is the number of distinct tokens of the corpus. */
  lemma FitSize(self: Vectorizer, docs: seq<string>)
    ensures |Fit(self, docs).vocab| == |set w | w in CorpusTokens(docs)|
  {
    DedupCard(CorpusTokens(docs));
  }

  /** Refitting replaces the vocabulary: a token of an earlier corpus that
      does not occur in the new one is forgotten, whatever the earlier state. */
  lemma RefitDiscards(self: Vectorizer, first: seq<string>, second: seq<string>, w: string)
    requires w in Fit(self, first).vocab
    requires forall d :: 0 <= d < |second| ==> w !in Tokens(second[d])
    ensures w !in Fit(Fit(self, first), second).vocab
    ensures w !in Fit(Fit(self, first), second).featureNames
  {
    InCorpusTokens(second, w);
  }

  /** Number of tokens of `ws` that the vocabulary knows. */
  function KnownCount(v: Vectorizer, ws: seq<string>): (n: nat)
    ensures n <= |ws|
    ensures (forall k :: 0 <= k < |ws| ==> ws[k] in v.vocab) ==> n == |ws|
  {
    if |ws| == 0 then 0
    else KnownCount(v, ws[..|ws|-1]) + (if ws[|ws|-1] in v.vocab then 1 else 0)
  }

  /** One document's vector: start from `[0] * len(vocab_)` and add one at
      the column of every known token; unknown tokens are skipped. */
  function CountRow(v: Vectorizer, ws: seq<string>): (row: seq<int>)
    requires Valid(v)
    ensures |row| == |v.featureNames|
    ensures forall i :: 0 <= i < |row| ==> row[i] == Count(ws, v.featureNames[i])
    ensures Sum(row) == KnownCount(v, ws)
  {
    if |ws| == 0 then
      SumZeros(|v.vocab|);
      Zeros(|v.vocab|)
    else
      var p := ws[..|ws|-1];
      var w := ws[|ws|-1];
      var row := CountRow(v, p);
      if w in v.vocab then
        ValidColumn(v, w);
        var c := v.vocab[w];
        SumUpdate(row, c, row[c] + 1);
        row[c := row[c] + 1]
      else
        row
  }

  /** `transform`: one count vector per document, in input order. */
  function Transform(self: Vectorizer, docs: seq<string>): (m: seq<seq<int>>)
    requires Valid(self)
    ensures |m| == |docs|
    ensures forall d :: 0 <= d < |docs| ==> |m[d]| == |self.featureNames|
    ensures forall d, i :: 0 <= d < |docs| && 0 <= i < |self.featureNames| ==>
      m[d][i] == Count(Tokens(docs[d]), self.featureNames[i])
    ensures forall d :: 0 <= d < |docs| ==> Sum(m[d]) == KnownCount(self, Tokens(docs[d]))
  {
    seq(|docs|, d requires 0 <= d < |docs| => CountRow(self, Tokens(docs[d])))
  }

  /** Before any fit every vector is empty, and no document is an error. */
  lemma TransformUnfitted(docs: seq<string>)
    ensures var m := Transform(New(), docs);
      |m| == |docs| && forall d :: 0 <= d < |m| ==> m[d] == []
  {
  }

  /** `fit_transform`: fit on `docs`, then transform the same `docs`. */
  function FitTransform(self: Vectorizer, docs: seq<string>): (r: (Vectorizer, seq<seq<int>>))
    ensures r.0 == Fit(self, docs)
    ensures |r.1| == |docs|
    ensures forall d :: 0 <= d < |docs| ==> |r.1[d]| == |r.0.featureNames|
    ensures forall d, i :: 0 <= d < |docs| && 0 <= i < |r.0.featureNames| ==>
      r.1[d][i] == Count(Tokens(docs[d]), r.0.featureNames[i])
    ensures forall d :: 0 <= d < |docs| ==> Sum(r.1[d]) == |Tokens(docs[d])|
  {
    var v := Fit(self, docs);
    var m := Transform(v, docs);
    forall d | 0 <= d < |docs|
      ensures Sum(m[d]) == |Tokens(docs[d])|
    {
      forall k | 0 <= k < |Tokens(docs[d])|
        ensures Tokens(docs[d])[k] in v.vocab
      {
        assert Tokens(docs[d])[k] in Tokens(docs[d]);
        InCorpusTokens(docs, Tokens(docs[d])[k]);
      }
    }
    (v, m)
  }

  /** Some row of the matrix has a positive entry in column `j`. */
  ghost predicate ColumnUsed(m: seq<seq<int>>, j: nat)
  {
    exists d :: 0 <= d < |m| && j < |m[d]| && m[d][j] > 0
  }

  /** After `fit_transform` every column is used by some document. */
  lemma FitTransformColumnsUsed(self: Vectorizer, docs: seq<string>, i: nat)
    requires i < |FitTransform(self, docs).0.featureNames|
    ensures ColumnUsed(FitTransform(self, docs).1, i)
  {
    var r := FitTransform(self, docs);
    var w := r.0.featureNames[i];
    InCorpusTokens(docs, w);
    var d :| 0 <= d < |docs| && w in Tokens(docs[d]);
    assert r.1[d][i] == Count(Tokens(docs[d]), w);
  }

  /** `get_feature_names`: the tokens ordered by column, the inverse of `vocab_`. */
  function GetFeatureNames(self: Vectorizer): (names: seq<string>)
    requires Valid(self)
    ensures |names| == |self.vocab|
    ensures forall i :: 0 <= i < |names| ==> names[i] in self.vocab && self.vocab[names[i]] == i
    ensures forall w :: w in self.vocab ==> 0 <= self.vocab[w] < |names| && names[self.vocab[w]] == w
  {
    forall w | w in self.vocab
      ensures 0 <= self.vocab[w] < |self.featureNames| && self.featureNames[self.vocab[w]] == w
    {
      ValidColumn(self, w);
    }
    self.featureNames
  }
}
