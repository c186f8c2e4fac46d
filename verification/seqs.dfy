/** Counting, summing and first-seen de-duplication over sequences.

    Every fold here recurses on the prefix `s[..|s|-1]` and handles the last
    element, which is the shape of a Python `for` loop that appends: the
    loop state after `k` iterations is the function applied to `s[..k]`. */
module Seqs {

  /** Number of occurrences of `x` in `s`. */
  function Count<T(==)>(s: seq<T>, x: T): (n: nat)
    ensures n <= |s|
    ensures n > 0 <==> x in s
  {
    if |s| == 0 then 0
    else
      assert s == s[..|s|-1] + [s[|s|-1]];
      Count(s[..|s|-1], x) + (if s[|s|-1] == x then 1 else 0)
  }

  lemma {:induction false} CountAppend<T>(a: seq<T>, b: seq<T>, x: T)
    ensures Count(a + b, x) == Count(a, x) + Count(b, x)
    decreases |b|
  {
    if |b| == 0 {
      assert a + b == a;
    } else {
      assert (a + b)[..|a + b| - 1] == a + b[..|b|-1];
      CountAppend(a, b[..|b|-1], x);
    }
  }

  /** Sum of a sequence of integers (Python's `sum`). */
  function Sum(s: seq<int>): int
  {
    if |s| == 0 then 0 else Sum(s[..|s|-1]) + s[|s|-1]
  }

  lemma {:induction false} SumAppend(a: seq<int>, b: seq<int>)
    ensures Sum(a + b) == Sum(a) + Sum(b)
    decreases |b|
  {
    if |b| == 0 {
      assert a + b == a;
    } else {
      assert (a + b)[..|a + b| - 1] == a + b[..|b|-1];
      SumAppend(a, b[..|b|-1]);
    }
  }

  /** Raising one entry raises the sum by the same amount. */
  lemma {:induction false} SumUpdate(s: seq<int>, i: nat, v: int)
    requires i < |s|
    ensures Sum(s[i := v]) == Sum(s) - s[i] + v
    decreases |s|
  {
    var n := |s| - 1;
    if i < n {
      assert s[i := v][..n] == s[..n][i := v];
      SumUpdate(s[..n], i, v);
    } else {
      assert s[i := v][..n] == s[..n];
    }
  }

  /** A sum of non-negative entries is zero exactly when every entry is. */
  lemma {:induction false} SumNonNegZero(s: seq<int>)
    requires forall i :: 0 <= i < |s| ==> s[i] >= 0
    ensures Sum(s) >= 0
    ensures Sum(s) == 0 <==> forall i :: 0 <= i < |s| ==> s[i] == 0
    decreases |s|
  {
    if |s| > 0 {
      var p := s[..|s|-1];
      SumNonNegZero(p);
      if Sum(s) == 0 {
        forall i | 0 <= i < |s| ensures s[i] == 0 {
          if i < |s| - 1 {
            assert s[i] == p[i];
          }
        }
      }
    }
  }

  /** `n` zeros: Python's `[0] * n`. */
  function Zeros(n: nat): (z: seq<int>)
    ensures |z| == n
    ensures forall i :: 0 <= i < n ==> z[i] == 0
  {
    seq(n, _ => 0)
  }

  lemma {:induction false} SumZeros(n: nat)
    ensures Sum(Zeros(n)) == 0
    decreases n
  {
    if n > 0 {
      assert Zeros(n)[..n-1] == Zeros(n-1);
      SumZeros(n-1);
    }
  }

  /** No element occurs twice. */
  ghost predicate NoDups<T>(s: seq<T>)
  {
    forall i, j :: 0 <= i < j < |s| ==> s[i] != s[j]
  }

  /** A duplicate-free sequence has as many distinct elements as entries. */
  lemma {:induction false} NoDupsCard<T>(s: seq<T>)
    requires NoDups(s)
    ensures |set x | x in s| == |s|
    decreases |s|
  {
    if |s| > 0 {
      var p := s[..|s|-1];
      var last := s[|s|-1];
      NoDupsCard(p);
      assert last !in p by {
        assert forall i :: 0 <= i < |p| ==> p[i] == s[i] && s[i] != s[|s|-1];
      }
      assert (set x | x in s) == (set x | x in p) + {last} by {
        assert s == p + [last];
      }
    }
  }

  /** Index of the first occurrence of `x` in `s` (Python's `list.index`). */
  function FirstIndex<T(==)>(s: seq<T>, x: T): (i: nat)
    requires x in s
    ensures i < |s| && s[i] == x
    ensures forall j :: 0 <= j < i ==> s[j] != x
  {
    if s[0] == x then 0 else 1 + FirstIndex(s[1..], x)
  }

  /** In a duplicate-free sequence the position of `s[i]` is `i`. */
  lemma FirstIndexNoDups<T>(s: seq<T>, i: nat)
    requires NoDups(s) && i < |s|
    ensures FirstIndex(s, s[i]) == i
  {
  }

  /** An element's first occurrence is not moved by appending to the sequence. */
  lemma FirstIndexPrefix<T>(s: seq<T>, k: nat, x: T)
    requires k <= |s| && x in s[..k]
    ensures FirstIndex(s, x) == FirstIndex(s[..k], x)
  {
    var i := FirstIndex(s[..k], x);
    assert s[i] == x;
    assert forall j :: 0 <= j < i ==> s[..k][j] == s[j];
  }

  /** The distinct elements of `s` in first-seen order: the loop
      `for x in s: if x not in out: out.append(x)`. */
  function Dedup<T(==,!new)>(s: seq<T>): (d: seq<T>)
    ensures NoDups(d)
    ensures forall x :: x in d <==> x in s
    ensures |d| <= |s|
  {
    if |s| == 0 then []
    else
      var p := s[..|s|-1];
      var last := s[|s|-1];
      assert s == p + [last];
      var d := Dedup(p);
      if last in d then d else d + [last]
  }

  /** De-duplicating a longer input only appends to the result. */
  lemma {:induction false} DedupPrefix<T(!new)>(s: seq<T>, k: nat)
    requires k <= |s|
    ensures Dedup(s[..k]) <= Dedup(s)
    decreases |s| - k
  {
    if k < |s| {
      var p := s[..|s|-1];
      assert p[..k] == s[..k];
      DedupPrefix(p, k);
      assert Dedup(p) <= Dedup(s);
    } else {
      assert s[..k] == s;
    }
  }

  /** Appending leaves earlier first occurrences alone; a new element is
      first seen at the end. */
  lemma FirstIndexSnoc<T>(p: seq<T>, y: T, x: T)
    requires x in p + [y]
    ensures FirstIndex(p + [y], x) == if x in p then FirstIndex(p, x) else |p|
  {
    assert (p + [y])[..|p|] == p;
    if x in p {
      FirstIndexPrefix(p + [y], |p|, x);
    } else {
      assert forall j :: 0 <= j < |p| ==> (p + [y])[j] == p[j];
    }
  }

  /** Dedup lists its elements in the order of their first occurrence in `s`. */
  lemma {:induction false} DedupFirstSeenOrder<T(!new)>(s: seq<T>, i: nat, j: nat)
    requires i < j < |Dedup(s)|
    ensures FirstIndex(s, Dedup(s)[i]) < FirstIndex(s, Dedup(s)[j])
    decreases |s|
  {
    var p := s[..|s|-1];
    var last := s[|s|-1];
    assert s == p + [last];
    DedupSnoc(p, last);
    var d := Dedup(p);
    var x := Dedup(s)[i];
    var y := Dedup(s)[j];
    assert x == d[i] && x in p;
    FirstIndexSnoc(p, last, x);
    FirstIndexSnoc(p, last, y);
    if j < |d| {
      assert y == d[j];
      DedupFirstSeenOrder(p, i, j);
    } else {
      assert y == last && last !in p;
    }
  }

  /** A sequence without duplicates is its own de-duplication. */
  lemma {:induction false} DedupNoDups<T(!new)>(s: seq<T>)
    requires NoDups(s)
    ensures Dedup(s) == s
    decreases |s|
  {
    if |s| > 0 {
      var p := s[..|s|-1];
      assert NoDups(p);
      DedupNoDups(p);
      assert s[|s|-1] !in p by {
        assert forall i :: 0 <= i < |p| ==> p[i] == s[i] && s[i] != s[|s|-1];
      }
      assert p + [s[|s|-1]] == s;
    }
  }

  /** One step of Dedup: appending `x` keeps the positions of the elements
      already seen, and an unseen `x` lands at the end. */
  lemma DedupSnoc<T(!new)>(p: seq<T>, x: T)
    ensures Dedup(p + [x]) == if x in Dedup(p) then Dedup(p) else Dedup(p) + [x]
    ensures forall c :: c in Dedup(p) ==> FirstIndex(Dedup(p + [x]), c) == FirstIndex(Dedup(p), c)
    ensures x !in Dedup(p) ==> FirstIndex(Dedup(p + [x]), x) == |Dedup(p)|
  {
    assert (p + [x])[..|p|] == p;
    var d := Dedup(p);
    var e := Dedup(p + [x]);
    forall c | c in d ensures FirstIndex(e, c) == FirstIndex(d, c) {
      assert e[..|d|] == d;
      FirstIndexPrefix(e, |d|, c);
    }
    if x !in d {
      assert forall j :: 0 <= j < |d| ==> e[j] != x;
    }
  }

  /** The number of distinct elements of `s`, as Python's `len(set(s))`. */
  lemma DedupCard<T(!new)>(s: seq<T>)
    ensures |set x | x in s| == |Dedup(s)|
  {
    NoDupsCard(Dedup(s));
    assert (set x | x in s) == (set x | x in Dedup(s));
  }

  /** The number of occurrences in `s` of each element of `keys`, in order. */
  function CountsOf<T(==)>(keys: seq<T>, s: seq<T>): (cs: seq<int>)
    ensures |cs| == |keys|
    ensures forall i :: 0 <= i < |keys| ==> cs[i] == Count(s, keys[i])
  {
    seq(|keys|, i requires 0 <= i < |keys| => Count(s, keys[i]))
  }

  /** The last element of `s` adds one to the count of `keys[j]`, which it
      equals, and nothing to the other keys. */
  lemma CountsOfLastSeen<T>(keys: seq<T>, s: seq<T>, j: nat)
    requires |s| > 0 && NoDups(keys) && j < |keys| && keys[j] == s[|s|-1]
    ensures forall i :: 0 <= i < |keys| ==>
      CountsOf(keys, s)[i] == CountsOf(keys, s[..|s|-1])[i] + (if i == j then 1 else 0)
  {
    forall i | 0 <= i < |keys|
      ensures CountsOf(keys, s)[i] == CountsOf(keys, s[..|s|-1])[i] + (if i == j then 1 else 0)
    {
      if i != j {
        assert keys[i] != keys[j];
      }
    }
  }

  /** The last element of `s`, when not among the keys, leaves their counts
      alone and is counted once. */
  lemma CountsOfLastUnseen<T>(keys: seq<T>, s: seq<T>)
    requires |s| > 0 && s[|s|-1] !in keys
    ensures CountsOf(keys + [s[|s|-1]], s) == CountsOf(keys, s[..|s|-1]) + [Count(s[..|s|-1], s[|s|-1]) + 1]
  {
  }

  lemma SumSnoc(s: seq<int>, v: int)
    ensures Sum(s + [v]) == Sum(s) + v
  {
    assert (s + [v])[..|s|] == s;
  }

  /** Adding one to a single entry adds one to the sum. */
  lemma SumIncrement(before: seq<int>, after: seq<int>, j: nat)
    requires j < |before| && |after| == |before|
    requires forall i :: 0 <= i < |before| ==> after[i] == before[i] + (if i == j then 1 else 0)
    ensures Sum(after) == Sum(before) + 1
  {
    assert after == before[j := before[j] + 1];
    SumUpdate(before, j, before[j] + 1);
  }

  /** The step of `DistinctCountsSum` when the last element was seen before. */
  lemma DistinctCountsLastSeen<T(!new)>(s: seq<T>)
    requires |s| > 0 && s[|s|-1] in Dedup(s[..|s|-1])
    ensures Sum(CountsOf(Dedup(s), s)) == Sum(CountsOf(Dedup(s[..|s|-1]), s[..|s|-1])) + 1
  {
    var p := s[..|s|-1];
    var x := s[|s|-1];
    var d := Dedup(p);
    var before := CountsOf(d, p);
    var j := FirstIndex(d, x);
    CountsOfLastSeen(d, s, j);
    SumIncrement(before, CountsOf(d, s), j);
    assert Dedup(s) == d;
  }

  /** The step of `DistinctCountsSum` when the last element is new. */
  lemma DistinctCountsLastUnseen<T(!new)>(s: seq<T>)
    requires |s| > 0 && s[|s|-1] !in Dedup(s[..|s|-1])
    ensures Sum(CountsOf(Dedup(s), s)) == Sum(CountsOf(Dedup(s[..|s|-1]), s[..|s|-1])) + 1
  {
    var p := s[..|s|-1];
    var x := s[|s|-1];
    var d := Dedup(p);
    assert Sum(CountsOf(d + [x], s)) == Sum(CountsOf(d, p)) + 1 by {
      assert Count(p, x) == 0;
      CountsOfLastUnseen(d, s);
      SumSnoc(CountsOf(d, p), 1);
    }
    assert Dedup(s) == d + [x];
  }

  /** Grouping `s` by value loses nothing: the occurrence counts of its
      distinct elements add up to its length. */
  lemma {:induction false} DistinctCountsSum<T(!new)>(s: seq<T>)
    ensures Sum(CountsOf(Dedup(s), s)) == |s|
    decreases |s|
  {
    if |s| > 0 {
      DistinctCountsSum(s[..|s|-1]);
      if s[|s|-1] in Dedup(s[..|s|-1]) {
        DistinctCountsLastSeen(s);
      } else {
        DistinctCountsLastUnseen(s);
      }
    }
  }
}
