/** Term frequencies, document frequencies and the TF-IDF transformer
    (classes_sem.py lines 81-202).

    The floating-point values (`rep / sum(...)`, `math.log`, `round(..., 3)`)
    are not modelled: each output cell is the record of the integers the
    Python formula is applied to, so shapes, document frequencies and the
    error cases are exact while the arithmetic on floats is left out.

    The Python code computes TF and IDF twice, once in `CountVectorizer`
    (`tf_transform`, `idf_transform`) and once inline in
    `TfidfTransformer.fit_transform`; the two copies are identical, so the
    model defines each once and the transformer uses them. */
module Tfidf {
  import opened Wrappers
  import opened Seqs
  import opened Text
  import opened CountVectorizer

  /** A count matrix: one row per document. Python does not check that rows
      are equally long, so neither does the type. */
  type Matrix = seq<seq<int>>

  /** `round(rep / sum(doc_vector), 3)` is computed from these two integers. */
  datatype TfCell = TfCell(count: int, rowSum: int)

  /** `round(math.log((docs_num + 1) / (docs_with_word + 1)) + 1, 3)` is
      computed from these two integers. */
  datatype IdfCell = IdfCell(docs: nat, df: nat)

  /** `round(tf * idf, 3)` is computed from these two cells. */
  datatype TfidfCell = TfidfCell(tf: TfCell, idf: IdfCell)

  /** The number of tuples `zip(*m)` yields: the length of the shortest row,
      and none when there are no rows. */
  function ZipWidth(m: Matrix): (w: nat)
    ensures |m| == 0 ==> w == 0
    ensures forall r :: 0 <= r < |m| ==> w <= |m[r]|
    ensures |m| > 0 ==> exists r :: 0 <= r < |m| && w == |m[r]|
  {
    if |m| == 0 then 0
    else if |m| == 1 then |m[0]|
    else
      var p := ZipWidth(m[..|m|-1]);
      assert forall r :: 0 <= r < |m| - 1 ==> m[..|m|-1][r] == m[r];
      if |m[|m|-1]| < p then |m[|m|-1]| else p
  }

  /** `docs_with_word`: the number of rows whose entry in column `j` is positive. */
  function DocFreq(m: Matrix, j: nat): (df: nat)
    requires forall r :: 0 <= r < |m| ==> j < |m[r]|
    ensures df <= |m|
  {
    if |m| == 0 then 0
    else DocFreq(m[..|m|-1], j) + (if m[|m|-1][j] > 0 then 1 else 0)
  }

  /** The rows whose entry in column `j` is positive. */
  ghost function RowsUsing(m: Matrix, j: nat): set<nat>
    requires forall r :: 0 <= r < |m| ==> j < |m[r]|
  {
    set r: nat | r < |m| && m[r][j] > 0
  }

  /** The document frequency is the number of rows that use the column, so it
      is positive exactly when some row does and equals the row count exactly
      when every row does. */
  lemma DocFreqCountsRows(m: Matrix, j: nat)
    requires forall r :: 0 <= r < |m| ==> j < |m[r]|
    ensures DocFreq(m, j) == |RowsUsing(m, j)|
    ensures DocFreq(m, j) > 0 <==> exists r :: 0 <= r < |m| && m[r][j] > 0
    ensures DocFreq(m, j) == |m| <==> forall r :: 0 <= r < |m| ==> m[r][j] > 0
  {
    DocFreqSet(m, j);
    DocFreqPositive(m, j);
    DocFreqAll(m, j);
  }

  lemma {:induction false} DocFreqSet(m: Matrix, j: nat)
    requires forall r :: 0 <= r < |m| ==> j < |m[r]|
    ensures DocFreq(m, j) == |RowsUsing(m, j)|
    decreases |m|
  {
    if |m| > 0 {
      var n := |m| - 1;
      var p := m[..n];
      DocFreqSet(p, j);
      assert forall r :: 0 <= r < n ==> p[r] == m[r];
      if m[n][j] > 0 {
        assert RowsUsing(m, j) == RowsUsing(p, j) + {n};
      } else {
        assert RowsUsing(m, j) == RowsUsing(p, j);
      }
    }
  }

  lemma {:induction false} DocFreqPositive(m: Matrix, j: nat)
    requires forall r :: 0 <= r < |m| ==> j < |m[r]|
    ensures DocFreq(m, j) > 0 <==> exists r :: 0 <= r < |m| && m[r][j] > 0
    decreases |m|
  {
    if |m| > 0 {
      var n := |m| - 1;
      var p := m[..n];
      DocFreqPositive(p, j);
      assert forall r :: 0 <= r < n ==> p[r] == m[r];
    }
  }

  lemma {:induction false} DocFreqAll(m: Matrix, j: nat)
    requires forall r :: 0 <= r < |m| ==> j < |m[r]|
    ensures DocFreq(m, j) == |m| <==> forall r :: 0 <= r < |m| ==> m[r][j] > 0
    decreases |m|
  {
    if |m| > 0 {
      var n := |m| - 1;
      var p := m[..n];
      DocFreqAll(p, j);
      assert forall r :: 0 <= r < n ==> p[r] == m[r];
    }
  }

  /** A row whose entries sum to zero makes the division fail; an empty row
      is never divided, so it does not. */
  predicate ZeroRow(row: seq<int>)
  {
    |row| > 0 && Sum(row) == 0
  }

  /** `tf_transform` (and the first loop of `TfidfTransformer.fit_transform`):
      each entry over its row's sum, rows in order. */
  function TfTransform(m: Matrix): (r: Result<seq<seq<TfCell>>>)
    ensures r.Err? <==> exists d :: 0 <= d < |m| && ZeroRow(m[d])
    ensures r.Err? ==> r.error == ZeroDivisionError
    ensures r.Ok? ==> |r.value| == |m|
    ensures r.Ok? ==> forall d :: 0 <= d < |m| ==> |r.value[d]| == |m[d]|
    ensures r.Ok? ==> forall d, i :: 0 <= d < |m| && 0 <= i < |m[d]| ==>
      r.value[d][i] == TfCell(m[d][i], Sum(m[d])) && Sum(m[d]) != 0
  {
    if |m| == 0 then Ok([])
    else
      var n := |m| - 1;
      assert forall d :: 0 <= d < n ==> m[..n][d] == m[d];
      var prev :- TfTransform(m[..n]);
      var row := m[n];
      if ZeroRow(row) then Err(ZeroDivisionError)
      else Ok(prev + [seq(|row|, i requires 0 <= i < |row| => TfCell(row[i], Sum(row)))])
  }

  /** `idf_transform` (and the second loop of `TfidfTransformer.fit_transform`):
      one cell per tuple of `zip(*m)`. */
  function IdfTransform(m: Matrix): (idf: seq<IdfCell>)
    ensures |idf| == ZipWidth(m)
    ensures forall j :: 0 <= j < |idf| ==> idf[j].docs == |m|
    ensures forall j :: 0 <= j < |idf| ==> idf[j].df <= idf[j].docs
    ensures forall j :: 0 <= j < |idf| ==> idf[j].df == |RowsUsing(m, j)|
  {
    var w := ZipWidth(m);
    forall j | 0 <= j < w ensures DocFreq(m, j) == |RowsUsing(m, j)| {
      DocFreqCountsRows(m, j);
    }
    seq(w, j requires 0 <= j < w => IdfCell(|m|, DocFreq(m, j)))
  }

  /** `TfidfTransformer.fit_transform`. A zero-sum row fails first (in the TF
      loop); then an empty matrix fails on `count_mtrx[0]`; then a row
      shorter than the first fails on an index in the last loop. Rows longer
      than the first are cut to its width. */
  function TransformerFitTransform(m: Matrix): (r: Result<seq<seq<TfidfCell>>>)
    ensures (exists d :: 0 <= d < |m| && ZeroRow(m[d])) ==> r == Err(ZeroDivisionError)
    ensures (forall d :: 0 <= d < |m| ==> !ZeroRow(m[d])) && |m| == 0 ==> r == Err(IndexError)
    ensures ((forall d :: 0 <= d < |m| ==> !ZeroRow(m[d])) && |m| > 0
             && (exists d :: 0 <= d < |m| && |m[d]| < |m[0]|)) ==> r == Err(IndexError)
    ensures r.Ok? <==> |m| > 0 && (forall d :: 0 <= d < |m| ==> !ZeroRow(m[d]) && |m[d]| >= |m[0]|)
    ensures r.Ok? ==> |r.value| == |m| && forall d :: 0 <= d < |m| ==> |r.value[d]| == |m[0]|
    ensures r.Ok? ==> forall d, w :: 0 <= d < |m| && 0 <= w < |m[0]| ==>
      r.value[d][w] == TfidfCell(TfCell(m[d][w], Sum(m[d])), IdfCell(|m|, |RowsUsing(m, w)|))
  {
    var tf :- TfTransform(m);
    if |m| == 0 then Err(IndexError)
    else
      var wrd := |m[0]|;
      var idf := IdfTransform(m);
      if |idf| < wrd then Err(IndexError)
      else
        Ok(seq(|m|, d requires 0 <= d < |m| =>
          seq(wrd, w requires 0 <= w < wrd => TfidfCell(tf[d][w], idf[w]))))
  }

  /** `TfidfVectorizer`: a count vectoriser whose `fit_transform` feeds the
      count matrix to a `TfidfTransformer`. The transformer keeps no state. */
  datatype TfidfVectorizer = TfidfVectorizer(counts: Vectorizer)

  function VectorizerFitTransform(self: TfidfVectorizer, corpus: seq<string>)
    : (r: (TfidfVectorizer, Result<seq<seq<TfidfCell>>>))
    ensures r.0.counts == Fit(self.counts, corpus)
    ensures r.1 == TransformerFitTransform(FitTransform(self.counts, corpus).1)
    ensures |corpus| == 0 ==> r.1 == Err(IndexError)
  {
    var c := FitTransform(self.counts, corpus);
    (TfidfVectorizer(c.0), TransformerFitTransform(c.1))
  }

  /** The vectoriser's feature names are those of its count vectoriser. */
  function GetTfidfFeatureNames(self: TfidfVectorizer): (names: seq<string>)
    requires Valid(self.counts)
    ensures |names| == |self.counts.vocab|
    ensures forall i :: 0 <= i < |names| ==> names[i] in self.counts.vocab && self.counts.vocab[names[i]] == i
  {
    GetFeatureNames(self.counts)
  }

  /** On a non-empty matrix whose rows all have width `w`, `zip` yields `w` tuples. */
  lemma ZipWidthUniform(m: Matrix, w: nat)
    requires |m| > 0 && forall d :: 0 <= d < |m| ==> |m[d]| == w
    ensures ZipWidth(m) == w
  {
  }

  /** When every column of a rectangular matrix is used by some row, every
      document frequency lies in [1, number of rows]. */
  lemma UsedColumnsDocFreq(m: Matrix, w: nat)
    requires |m| > 0 && forall d :: 0 <= d < |m| ==> |m[d]| == w
    requires forall j :: 0 <= j < w ==> ColumnUsed(m, j)
    ensures |IdfTransform(m)| == w
    ensures forall j :: 0 <= j < w ==> 1 <= IdfTransform(m)[j].df <= |m|
  {
    ZipWidthUniform(m, w);
    forall j | 0 <= j < w ensures 1 <= IdfTransform(m)[j].df {
      DocFreqCountsRows(m, j);
      assert ColumnUsed(m, j);
      var d :| 0 <= d < |m| && j < |m[d]| && m[d][j] > 0;
      assert d in RowsUsing(m, j);
    }
  }

  /** The count matrix of `fit_transform` is rectangular, one row per
      document and one column per feature, and uses every column. */
  lemma FitTransformUsesColumns(self: Vectorizer, docs: seq<string>)
    ensures |FitTransform(self, docs).1| == |docs|
    ensures forall d :: 0 <= d < |docs| ==>
      |FitTransform(self, docs).1[d]| == |FitTransform(self, docs).0.featureNames|
    ensures forall j :: 0 <= j < |FitTransform(self, docs).0.featureNames| ==>
      ColumnUsed(FitTransform(self, docs).1, j)
  {
    var c := FitTransform(self, docs);
    forall j | 0 <= j < |c.0.featureNames| ensures ColumnUsed(c.1, j) {
      FitTransformColumnsUsed(self, docs, j);
    }
  }

  /** On the matrix `fit_transform` produces, there is one IDF cell per
      feature, and each column's document frequency lies in [1, number of
      documents]. */
  lemma FitTransformDocFreq(self: Vectorizer, docs: seq<string>, j: nat)
    requires |docs| > 0 && j < |FitTransform(self, docs).0.featureNames|
    ensures |IdfTransform(FitTransform(self, docs).1)| == |FitTransform(self, docs).0.featureNames|
    ensures 1 <= IdfTransform(FitTransform(self, docs).1)[j].df <= |docs|
  {
    var c := FitTransform(self, docs);
    FitTransformUsesColumns(self, docs);
    UsedColumnsDocFreq(c.1, |c.0.featureNames|);
  }

  /** The transformer succeeds on a non-empty rectangular matrix without
      zero-sum rows; when every column is used, each IDF cell has a document
      frequency in [1, number of rows]. */
  lemma TransformerOnUsedMatrix(m: Matrix, w: nat)
    requires |m| > 0 && forall d :: 0 <= d < |m| ==> |m[d]| == w && Sum(m[d]) > 0
    requires forall j :: 0 <= j < w ==> ColumnUsed(m, j)
    ensures TransformerFitTransform(m).Ok?
    ensures |TransformerFitTransform(m).value| == |m|
    ensures forall d, j :: 0 <= d < |m| && 0 <= j < w ==>
      |TransformerFitTransform(m).value[d]| == w
      && TransformerFitTransform(m).value[d][j].tf.rowSum == Sum(m[d])
      && TransformerFitTransform(m).value[d][j].idf.docs == |m|
      && 1 <= TransformerFitTransform(m).value[d][j].idf.df <= |m|
  {
    UsedColumnsDocFreq(m, w);
    var r := TransformerFitTransform(m);
    assert r.Ok?;
    forall d, j | 0 <= d < |m| && 0 <= j < w
      ensures 1 <= r.value[d][j].idf.df <= |m|
    {
      assert r.value[d][j].idf.df == |RowsUsing(m, j)| == IdfTransform(m)[j].df;
    }
  }

  /** One cell of the transformer's output on such a matrix. */
  lemma TransformerCellOnUsedMatrix(m: Matrix, w: nat, d: nat, j: nat)
    requires |m| > 0 && forall e :: 0 <= e < |m| ==> |m[e]| == w && Sum(m[e]) > 0
    requires forall k :: 0 <= k < w ==> ColumnUsed(m, k)
    requires d < |m| && j < w
    ensures TransformerFitTransform(m).Ok? && |TransformerFitTransform(m).value| == |m|
    ensures |TransformerFitTransform(m).value[d]| == w
    ensures TransformerFitTransform(m).value[d][j].tf == TfCell(m[d][j], Sum(m[d]))
    ensures TransformerFitTransform(m).value[d][j].idf.docs == |m|
    ensures 1 <= TransformerFitTransform(m).value[d][j].idf.df <= |m|
  {
    TransformerOnUsedMatrix(m, w);
  }

  /** The count matrix of a corpus whose documents all contain a token is
      rectangular, has no zero-sum row and uses every column. */
  lemma FitTransformNoZeroRow(self: Vectorizer, corpus: seq<string>)
    requires forall d :: 0 <= d < |corpus| ==> |Tokens(corpus[d])| > 0
    ensures |FitTransform(self, corpus).1| == |corpus|
    ensures forall d :: 0 <= d < |corpus| ==>
      |FitTransform(self, corpus).1[d]| == |FitTransform(self, corpus).0.featureNames|
      && Sum(FitTransform(self, corpus).1[d]) == |Tokens(corpus[d])|
    ensures forall j :: 0 <= j < |FitTransform(self, corpus).0.featureNames| ==>
      ColumnUsed(FitTransform(self, corpus).1, j)
  {
    FitTransformUsesColumns(self, corpus);
  }

  /** `TfidfVectorizer.fit_transform` succeeds on a non-empty corpus whose
      documents all contain a token, with one row per document. */
  lemma VectorizerFitTransformOk(self: TfidfVectorizer, corpus: seq<string>)
    requires |corpus| > 0
    requires forall d :: 0 <= d < |corpus| ==> |Tokens(corpus[d])| > 0
    ensures VectorizerFitTransform(self, corpus).1.Ok?
    ensures |VectorizerFitTransform(self, corpus).1.value| == |corpus|
  {
    var c := FitTransform(self.counts, corpus);
    FitTransformNoZeroRow(self.counts, corpus);
    TransformerOnUsedMatrix(c.1, |c.0.featureNames|);
  }

  /** In that case each row has one cell per feature, and the cell for
      document `d` and feature `w` takes its TF from the count of the
      feature in the document over the document's token count. */
  lemma VectorizerFitTransformTf(self: TfidfVectorizer, corpus: seq<string>, d: nat, w: nat)
    requires |corpus| > 0
    requires forall d :: 0 <= d < |corpus| ==> |Tokens(corpus[d])| > 0
    requires d < |corpus| && w < |Fit(self.counts, corpus).featureNames|
    ensures VectorizerFitTransform(self, corpus).1.Ok?
    ensures |VectorizerFitTransform(self, corpus).1.value| == |corpus|
    ensures |VectorizerFitTransform(self, corpus).1.value[d]| == |Fit(self.counts, corpus).featureNames|
    ensures VectorizerFitTransform(self, corpus).1.value[d][w].tf ==
      TfCell(Count(Tokens(corpus[d]), Fit(self.counts, corpus).featureNames[w]), |Tokens(corpus[d])|)
  {
    var c := FitTransform(self.counts, corpus);
    FitTransformNoZeroRow(self.counts, corpus);
    TransformerCellOnUsedMatrix(c.1, |c.0.featureNames|, d, w);
    assert c.1[d][w] == Count(Tokens(corpus[d]), c.0.featureNames[w]);
  }

  /** ... and its IDF from the number of documents and a document frequency
      in [1, number of documents]. */
  lemma VectorizerFitTransformIdf(self: TfidfVectorizer, corpus: seq<string>, d: nat, w: nat)
    requires |corpus| > 0
    requires forall d :: 0 <= d < |corpus| ==> |Tokens(corpus[d])| > 0
    requires d < |corpus| && w < |Fit(self.counts, corpus).featureNames|
    ensures VectorizerFitTransform(self, corpus).1.Ok?
    ensures |VectorizerFitTransform(self, corpus).1.value| == |corpus|
    ensures |VectorizerFitTransform(self, corpus).1.value[d]| == |Fit(self.counts, corpus).featureNames|
    ensures VectorizerFitTransform(self, corpus).1.value[d][w].idf.docs == |corpus|
    ensures 1 <= VectorizerFitTransform(self, corpus).1.value[d][w].idf.df <= |corpus|
  {
    var c := FitTransform(self.counts, corpus);
    FitTransformNoZeroRow(self.counts, corpus);
    TransformerCellOnUsedMatrix(c.1, |c.0.featureNames|, d, w);
  }

  /** A fitted vocabulary with a document that has no token gives that
      document a non-empty all-zero row, so the TF division fails. */
  lemma VectorizerFitTransformEmptyDocument(self: TfidfVectorizer, corpus: seq<string>, d: nat)
    requires d < |corpus| && |Tokens(corpus[d])| == 0
    requires |Fit(self.counts, corpus).vocab| > 0
    ensures VectorizerFitTransform(self, corpus).1 == Err(ZeroDivisionError)
  {
    var (v, m) := FitTransform(self.counts, corpus);
    assert ZeroRow(m[d]);
  }
}
