/** The one-hot encoder `fit_transform(*args)` of issue_4/issue_4.py.

    Each distinct category, in order of first appearance, is numbered
    k = 0, 1, ...; its vector is the binary representation of `1 << k`
    zero-padded to as many digits as there are distinct categories, so the
    single 1 sits at position `width - 1 - k` counted from the left. */
module OneHot {
  import opened Wrappers
  import opened Seqs

  /** A positional argument of `fit_transform`: a string, or a list of
      strings (any other iterable behaves like the list of its items). */
  datatype Arg = Str(s: string) | List(items: seq<string>)

  /** A row of the output: the category and its vector. */
  type Row = (string, seq<int>)

  /** `categories = args if isinstance(args[0], str) else list(args[0])`.
      No argument raises `TypeError`; so does `set(categories)` when the
      first argument is a string and a later one is a (unhashable) list. */
  function Categories(args: seq<Arg>): (r: Result<seq<string>>)
    ensures |args| == 0 ==> r == Err(TypeError)
    ensures |args| > 0 && args[0].List? ==> r == Ok(args[0].items)
    ensures |args| > 0 && args[0].Str? ==>
      (r.Ok? <==> forall i :: 0 <= i < |args| ==> args[i].Str?)
    ensures |args| > 0 && args[0].Str? && r.Ok? ==>
      |r.value| == |args| && forall i :: 0 <= i < |args| ==> r.value[i] == args[i].s
    ensures r.Err? ==> r.error == TypeError
  {
    if |args| == 0 then Err(TypeError)
    else match args[0]
      case List(items) => Ok(items)
      case Str(_) =>
        if forall i :: 0 <= i < |args| ==> args[i].Str? then
          Ok(seq(|args|, i requires 0 <= i < |args| && args[i].Str? => args[i].s))
        else Err(TypeError)
  }

  /** `1 << k`. */
  function Pow2(k: nat): (p: nat)
    ensures p >= 1
  {
    if k == 0 then 1 else 2 * Pow2(k - 1)
  }

  /** `format(x, 'b')` read back digit by digit with `int(b)`: the binary
      digits of `x`, most significant first. */
  function Binary(x: nat): (ds: seq<int>)
    ensures |ds| >= 1
  {
    if x < 2 then [x] else Binary(x / 2) + [x % 2]
  }

  /** The `0{width}` part of the format: pad with zeros on the left up to
      `width` digits; a longer representation is kept whole. */
  function ZeroPad(ds: seq<int>, width: nat): (r: seq<int>)
    ensures |r| == if |ds| >= width then |ds| else width
  {
    if |ds| >= width then ds else Zeros(width - |ds|) + ds
  }

  /** The vector of the category numbered `k` among `width` categories:
      `bin_format.format(1 << k)` with `bin_format = '{0:0<width>b}'`. */
  function BitVector(k: nat, width: nat): seq<int>
  {
    ZeroPad(Binary(Pow2(k)), width)
  }

  /** A vector of `width` zeros with a single 1 at position `p`. */
  function OneHotAt(width: nat, p: nat): (v: seq<int>)
    ensures |v| == width
  {
    seq(width, j => if j == p then 1 else 0)
  }

  /** `1 << k` is a one followed by `k` zeros. */
  lemma {:induction false} BinaryPow2(k: nat)
    ensures Binary(Pow2(k)) == [1] + Zeros(k)
    decreases k
  {
    if k > 0 {
      BinaryPow2(k - 1);
      assert Pow2(k) / 2 == Pow2(k - 1) && Pow2(k) % 2 == 0;
      assert [1] + Zeros(k - 1) + [0] == [1] + Zeros(k);
    }
  }

  /** The formatted vector of category `k` has its 1 at `width - 1 - k`. */
  lemma BitVectorOneHot(k: nat, width: nat)
    requires k < width
    ensures BitVector(k, width) == OneHotAt(width, width - 1 - k)
  {
    BinaryPow2(k);
    var ds := [1] + Zeros(k);
    var v := BitVector(k, width);
    assert v == Zeros(width - (k + 1)) + ds;
    forall j | 0 <= j < width ensures v[j] == OneHotAt(width, width - 1 - k)[j] {
      if j < width - 1 - k {
        assert v[j] == 0;
      } else if j > width - 1 - k {
        assert v[j] == ds[j - (width - 1 - k)];
      }
    }
  }

  /** The loop state: `seen_categories` and `transformed_rows`. */
  datatype Encoder = Encoder(seen: map<string, seq<int>>, rows: seq<Row>)

  /** The loop over `categories`: a new category gets the vector numbered
      `len(seen_categories)` (`setdefault` keeps an existing one), and every
      category appends a row with its vector. `width` is the number of
      distinct categories of the whole input. */
  function Encode(cats: seq<string>, width: nat): (e: Encoder)
    ensures |e.rows| == |cats|
    ensures forall c :: c in e.seen <==> c in cats
  {
    if |cats| == 0 then Encoder(map[], [])
    else
      var p := cats[..|cats|-1];
      var cat := cats[|cats|-1];
      assert cats == p + [cat];
      var e := Encode(p, width);
      var seen := if cat in e.seen then e.seen else e.seen[cat := BitVector(|e.seen|, width)];
      Encoder(seen, e.rows + [(cat, seen[cat])])
  }

  /** The loop keeps `seen_categories` equal to the distinct categories so
      far, the `k`-th of them mapped to the vector numbered `k`. */
  lemma {:induction false} EncodeSeen(cats: seq<string>, width: nat)
    ensures |Encode(cats, width).seen| == |Dedup(cats)|
    ensures forall k :: 0 <= k < |Dedup(cats)| ==> Dedup(cats)[k] in Encode(cats, width).seen
    ensures forall k :: 0 <= k < |Dedup(cats)| ==>
      Encode(cats, width).seen[Dedup(cats)[k]] == BitVector(k, width)
    decreases |cats|
  {
    if |cats| > 0 {
      var p := cats[..|cats|-1];
      var cat := cats[|cats|-1];
      assert cats == p + [cat];
      EncodeSeen(p, width);
      EncodeSeenStep(p, cat, width);
    }
  }

  /** One iteration of the loop keeps the numbering of the categories seen
      before it and numbers a new category `len(seen_categories)`. */
  lemma EncodeSeenStep(p: seq<string>, cat: string, width: nat)
    requires |Encode(p, width).seen| == |Dedup(p)|
    requires forall k :: 0 <= k < |Dedup(p)| ==> Dedup(p)[k] in Encode(p, width).seen
    requires forall k :: 0 <= k < |Dedup(p)| ==> Encode(p, width).seen[Dedup(p)[k]] == BitVector(k, width)
    ensures |Encode(p + [cat], width).seen| == |Dedup(p + [cat])|
    ensures forall k :: 0 <= k < |Dedup(p + [cat])| ==> Dedup(p + [cat])[k] in Encode(p + [cat], width).seen
    ensures forall k :: 0 <= k < |Dedup(p + [cat])| ==>
      Encode(p + [cat], width).seen[Dedup(p + [cat])[k]] == BitVector(k, width)
  {
    var cats := p + [cat];
    assert cats[..|cats|-1] == p && cats[|cats|-1] == cat;
    DedupSnoc(p, cat);
    var s := Encode(cats, width).seen;
    var d := Dedup(p);
    if cat in d {
      assert s == Encode(p, width).seen;
      assert Dedup(cats) == d;
    } else {
      EncodeSeenNew(p, cat, width);
    }
  }

  /** The step for a category met for the first time. */
  lemma EncodeSeenNew(p: seq<string>, cat: string, width: nat)
    requires cat !in Dedup(p)
    requires |Encode(p, width).seen| == |Dedup(p)|
    requires forall k :: 0 <= k < |Dedup(p)| ==> Dedup(p)[k] in Encode(p, width).seen
    requires forall k :: 0 <= k < |Dedup(p)| ==> Encode(p, width).seen[Dedup(p)[k]] == BitVector(k, width)
    ensures |Encode(p + [cat], width).seen| == |Dedup(p)| + 1
    ensures forall k :: 0 <= k < |Dedup(p)| + 1 ==> (Dedup(p) + [cat])[k] in Encode(p + [cat], width).seen
    ensures forall k :: 0 <= k < |Dedup(p)| + 1 ==>
      Encode(p + [cat], width).seen[(Dedup(p) + [cat])[k]] == BitVector(k, width)
  {
    var cats := p + [cat];
    assert cats[..|cats|-1] == p && cats[|cats|-1] == cat;
    var e := Encode(p, width);
    assert cat !in e.seen;
    assert Encode(cats, width).seen == e.seen[cat := BitVector(|e.seen|, width)];
    NumberedSnoc(e.seen, Dedup(p), cat, width);
  }

  /** Numbering one more key: if the keys of `m` are `d`, the `k`-th mapped
      to the vector numbered `k`, then adding a new key numbered `|d|`
      keeps that correspondence for `d + [cat]`. */
  lemma NumberedSnoc(m: map<string, seq<int>>, d: seq<string>, cat: string, width: nat)
    requires cat !in m && |m| == |d|
    requires forall k :: 0 <= k < |d| ==> d[k] in m && m[d[k]] == BitVector(k, width)
    ensures |m[cat := BitVector(|d|, width)]| == |d| + 1
    ensures forall k :: 0 <= k < |d| + 1 ==> (d + [cat])[k] in m[cat := BitVector(|d|, width)]
    ensures forall k :: 0 <= k < |d| + 1 ==>
      m[cat := BitVector(|d|, width)][(d + [cat])[k]] == BitVector(k, width)
  {
    var m' := m[cat := BitVector(|d|, width)];
    forall k | 0 <= k < |d| + 1
      ensures (d + [cat])[k] in m' && m'[(d + [cat])[k]] == BitVector(k, width)
    {
      if k < |d| {
        assert (d + [cat])[k] == d[k] && d[k] != cat;
      }
    }
  }

  /** Row `i` pairs `cats[i]` with the vector numbered by the first-seen
      position of its category. */
  lemma {:induction false} EncodeRow(cats: seq<string>, width: nat, i: nat)
    requires i < |cats|
    ensures Encode(cats, width).rows[i].0 == cats[i]
    ensures Encode(cats, width).rows[i].1 == BitVector(FirstIndex(Dedup(cats), cats[i]), width)
    decreases |cats|
  {
    var p := cats[..|cats|-1];
    var cat := cats[|cats|-1];
    assert cats == p + [cat];
    var rows := Encode(cats, width).rows;
    if i < |p| {
      assert cats[i] == p[i];
      assert rows[i] == Encode(p, width).rows[i];
      DedupSnoc(p, cat);
      EncodeRow(p, width, i);
    } else {
      EncodeSeen(cats, width);
      var d := Dedup(cats);
      var k := FirstIndex(d, cat);
      assert rows[i].1 == Encode(cats, width).seen[cat];
      assert d[k] == cat;
    }
  }

  /** The rows the encoder is meant to produce, stated directly: row `i`
      pairs `cats[i]` with a vector as wide as there are distinct
      categories whose single 1 sits `k` places from the right, `k` being
      the first-seen position of the category. */
  function Expected(cats: seq<string>): (rows: seq<Row>)
    ensures |rows| == |cats|
  {
    var d := Dedup(cats);
    seq(|cats|, i requires 0 <= i < |cats| =>
      (cats[i], OneHotAt(|d|, |d| - 1 - FirstIndex(d, cats[i]))))
  }

  /** Row `i` of the loop, run with the number of distinct categories as
      the width, is the expected one. */
  lemma EncodeExpectedRow(cats: seq<string>, i: nat)
    requires i < |cats|
    ensures Encode(cats, |Dedup(cats)|).rows[i].0 == Expected(cats)[i].0
    ensures Encode(cats, |Dedup(cats)|).rows[i].1 == Expected(cats)[i].1
  {
    var d := Dedup(cats);
    var k := FirstIndex(d, cats[i]);
    var v := OneHotAt(|d|, |d| - 1 - k);
    assert Expected(cats)[i] == (cats[i], v);
    EncodeRow(cats, |d|, i);
    BitVectorOneHot(k, |d|);
    assert Encode(cats, |d|).rows[i].1 == v;
  }

  /** So the whole loop yields the expected rows. */
  lemma EncodeExpected(cats: seq<string>)
    ensures Encode(cats, |Dedup(cats)|).rows == Expected(cats)
  {
    var rows := Encode(cats, |Dedup(cats)|).rows;
    var want := Expected(cats);
    forall i | 0 <= i < |cats| ensures rows[i] == want[i] {
      EncodeExpectedRow(cats, i);
    }
  }

  /** `fit_transform(*args)`: the `TypeError`s of `Categories`, otherwise
      the expected rows. */
  function FitTransform(args: seq<Arg>): (r: Result<seq<Row>>)
    ensures r.Err? <==> Categories(args).Err?
    ensures r.Err? ==> r.error == TypeError
    ensures r.Ok? ==> r.value == Expected(Categories(args).value)
  {
    var cats :- Categories(args);
    DedupCard(cats);
    EncodeExpected(cats);
    Ok(Encode(cats, |set c | c in cats|).rows)
  }

  /** Every vector has exactly one 1 and zeros elsewhere. */
  lemma {:induction false} OneHotAtExactlyOne(width: nat, p: nat)
    requires p < width
    ensures Count(OneHotAt(width, p), 1) == 1
    ensures forall j :: 0 <= j < width ==> OneHotAt(width, p)[j] in {0, 1}
    decreases width
  {
    var v := OneHotAt(width, p);
    var u := v[..width-1];
    if p < width - 1 {
      assert u == OneHotAt(width - 1, p);
      OneHotAtExactlyOne(width - 1, p);
    } else {
      assert u == Zeros(width - 1);
      assert 1 !in u;
    }
  }

  /** Every expected vector is as wide as there are distinct categories
      (`len(set(categories))`) and holds exactly one 1. */
  lemma ExpectedOneHot(cats: seq<string>, i: nat)
    requires i < |cats|
    ensures |Expected(cats)[i].1| == |set c | c in cats|
    ensures Count(Expected(cats)[i].1, 1) == 1
    ensures forall j :: 0 <= j < |Expected(cats)[i].1| ==> Expected(cats)[i].1[j] in {0, 1}
  {
    DedupCard(cats);
    var d := Dedup(cats);
    OneHotAtExactlyOne(|d|, |d| - 1 - FirstIndex(d, cats[i]));
  }

  /** Distinct positions give distinct vectors. */
  lemma OneHotAtInjective(width: nat, p: nat, q: nat)
    requires p < width && q < width
    ensures OneHotAt(width, p) == OneHotAt(width, q) <==> p == q
  {
    if p != q {
      assert OneHotAt(width, p)[p] != OneHotAt(width, q)[p];
    }
  }

  /** Two rows have the same vector exactly when they have the same category. */
  lemma ExpectedSameVectorIffSameCategory(cats: seq<string>, i: nat, j: nat)
    requires i < |cats| && j < |cats|
    ensures Expected(cats)[i].1 == Expected(cats)[j].1 <==> cats[i] == cats[j]
  {
    var d := Dedup(cats);
    var ki := FirstIndex(d, cats[i]);
    var kj := FirstIndex(d, cats[j]);
    OneHotAtInjective(|d|, |d| - 1 - ki, |d| - 1 - kj);
    assert ki == kj <==> cats[i] == cats[j];
  }

  /** No argument at all raises `TypeError`. */
  lemma NoArguments()
    ensures FitTransform([]) == Err(TypeError)
  {
  }

  /** A list as a later argument makes `set(categories)` fail. */
  lemma UnhashableLaterArgument(s: string, items: seq<string>)
    ensures FitTransform([Str(s), List(items)]) == Err(TypeError)
  {
  }

  /** A lone string is one category: `fit_transform('Python class') == [('Python class', [1])]`. */
  lemma SingleString(s: string)
    ensures FitTransform([Str(s)]) == Ok([(s, [1])])
  {
    var c := Categories([Str(s)]);
    assert c.Ok? && |c.value| == 1 && c.value[0] == s;
    assert c.value == [s];
    assert Dedup([s]) == [s];
    assert OneHotAt(1, 0) == [1];
    var r := Expected([s]);
    assert r[0].0 == s && r[0].1 == [1];
    assert r == [(s, [1])];
  }

  /** Four distinct categories, the second one repeated at the end, as in
      the list case of the tests (`['Math', 'Python', 'ML', 'Algo', 'Python']`). */
  lemma RepeatedCategoryDedup(a: string, b: string, c: string, e: string)
    requires a != b && a != c && a != e && b != c && b != e && c != e
    ensures Dedup([a, b, c, e, b]) == [a, b, c, e]
  {
    DedupNoDups([a, b, c, e]);
    DedupSnoc([a, b, c, e], b);
    assert [a, b, c, e] + [b] == [a, b, c, e, b];
  }

  /** The vectors of four categories, one per position. */
  lemma FourVectors()
    ensures OneHotAt(4, 3) == [0, 0, 0, 1]
    ensures OneHotAt(4, 2) == [0, 0, 1, 0]
    ensures OneHotAt(4, 1) == [0, 1, 0, 0]
    ensures OneHotAt(4, 0) == [1, 0, 0, 0]
  {
  }

  /** The expected rows of the repeated-category input. */
  lemma RepeatedCategoryRows(a: string, b: string, c: string, e: string)
    requires a != b && a != c && a != e && b != c && b != e && c != e
    ensures Expected([a, b, c, e, b]) ==
      [(a, [0, 0, 0, 1]), (b, [0, 0, 1, 0]), (c, [0, 1, 0, 0]), (e, [1, 0, 0, 0]), (b, [0, 0, 1, 0])]
  {
    var d := [a, b, c, e];
    RepeatedCategoryDedup(a, b, c, e);
    FourVectors();
    FirstIndexNoDups(d, 0);
    FirstIndexNoDups(d, 1);
    FirstIndexNoDups(d, 2);
    FirstIndexNoDups(d, 3);
  }

  /** The list case of the tests, for any four distinct subjects: each
      category's 1 moves one digit left per earlier distinct category, and
      the repeated one gets its first vector again. */
  lemma RepeatedCategoryExample(a: string, b: string, c: string, e: string)
    requires a != b && a != c && a != e && b != c && b != e && c != e
    ensures FitTransform([List([a, b, c, e, b])]) ==
      Ok([(a, [0, 0, 0, 1]), (b, [0, 0, 1, 0]), (c, [0, 1, 0, 0]), (e, [1, 0, 0, 0]), (b, [0, 0, 1, 0])])
  {
    assert Categories([List([a, b, c, e, b])]) == Ok([a, b, c, e, b]);
    RepeatedCategoryRows(a, b, c, e);
  }
}
