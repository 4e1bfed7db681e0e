/** The Python list operations that the ranking step of get_recommendations is
    built from: `enumerate`, `sorted(..., key=score, reverse=True)` and slicing
    with non-negative bounds. Scores are integers standing for the
    floating-point cosine similarities; only their order matters here. */
module PythonLists {

  function Min(a: int, b: int): (r: int) { if a <= b then a else b }
  function Max(a: int, b: int): (r: int) { if a <= b then b else a }

  /** One element of `enumerate(row)`: a row position and the score stored there. */
  datatype Pair = Pair(index: nat, score: int)

  /** `list(enumerate(row))` */
  function Enumerate(row: seq<int>): (r: seq<Pair>) {
    seq(|row|, i requires 0 <= i < |row| => Pair(i, row[i]))
  }

  /** `s[lo:hi]` for non-negative bounds: both bounds are clamped to the length,
      and a window that is empty or starts past the end gives `[]`. */
  function Slice<T>(s: seq<T>, lo: nat, hi: nat): (r: seq<T>)
    ensures |r| == Max(0, Min(hi, |s|) - Min(lo, |s|))
    ensures forall i :: 0 <= i < |r| ==> r[i] == s[lo + i]
  {
    if lo < hi && lo < |s| then s[lo..Min(hi, |s|)] else []
  }

  /** Places `x` in front of the first element whose score does not exceed its
      own, so `x` ends up ahead of every element with an equal score. */
  function Insert(x: Pair, s: seq<Pair>): (r: seq<Pair>) {
    if s == [] || x.score >= s[0].score then [x] + s else [s[0]] + Insert(x, s[1..])
  }

  /** `sorted(s, key=lambda p: p[1], reverse=True)`: an insertion sort that is
      descending by score and, like Python's, stable (equal scores keep their
      input order even though `reverse=True`). */
  function SortByScoreDescending(s: seq<Pair>): (r: seq<Pair>) {
    if s == [] then [] else Insert(s[0], SortByScoreDescending(s[1..]))
  }

  predicate NonIncreasing(s: seq<Pair>) {
    forall i, j :: 0 <= i < j < |s| ==> s[i].score >= s[j].score
  }

  /** The elements of `s` with score `v`, in their order in `s`. A sort is stable
      when this subsequence is the same before and after, for every `v`. */
  function WithScore(s: seq<Pair>, v: int): (r: seq<Pair>) {
    if s == [] then [] else (if s[0].score == v then [s[0]] else []) + WithScore(s[1..], v)
  }

  /** The order a stable descending sort of `enumerate` output produces:
      higher score first, and among equal scores the lower position first. */
  predicate Precedes(a: Pair, b: Pair) {
    a.score > b.score || (a.score == b.score && a.index < b.index)
  }

  predicate InOrder(s: seq<Pair>) {
    forall i, j :: 0 <= i < j < |s| ==> Precedes(s[i], s[j])
  }

  predicate IndicesIncreasing(s: seq<Pair>) {
    forall i, j :: 0 <= i < j < |s| ==> s[i].index < s[j].index
  }

  predicate DistinctIndices(s: seq<Pair>) {
    forall i, j :: 0 <= i < j < |s| ==> s[i].index != s[j].index
  }

  /** `[p[0] for p in s]` */
  function Indices(s: seq<Pair>): (r: seq<nat>) {
    seq(|s|, i requires 0 <= i < |s| => s[i].index)
  }

  lemma {:induction false} InsertPermutes(x: Pair, s: seq<Pair>)
    ensures multiset(Insert(x, s)) == multiset(s) + multiset{x}
    ensures |Insert(x, s)| == |s| + 1
  {
    if s == [] || x.score >= s[0].score {
    } else {
      InsertPermutes(x, s[1..]);
      assert s == [s[0]] + s[1..];
    }
  }

  /** The sort returns a rearrangement of its input. */
  lemma {:induction false} SortPermutes(s: seq<Pair>)
    ensures multiset(SortByScoreDescending(s)) == multiset(s)
    ensures |SortByScoreDescending(s)| == |s|
  {
    if s != [] {
      SortPermutes(s[1..]);
      InsertPermutes(s[0], SortByScoreDescending(s[1..]));
      assert s == [s[0]] + s[1..];
    }
  }

  lemma {:induction false} InsertNonIncreasing(x: Pair, s: seq<Pair>)
    requires NonIncreasing(s)
    ensures NonIncreasing(Insert(x, s))
  {
    if s == [] || x.score >= s[0].score {
    } else {
      var t := Insert(x, s[1..]);
      InsertNonIncreasing(x, s[1..]);
      InsertPermutes(x, s[1..]);
      forall j | 0 <= j < |t|
        ensures s[0].score >= t[j].score
      {
        assert t[j] in multiset(t);
        if t[j] != x {
          assert t[j] in s[1..];
        }
      }
    }
  }

  /** The sort returns its input in descending order of score. */
  lemma {:induction false} SortNonIncreasing(s: seq<Pair>)
    ensures NonIncreasing(SortByScoreDescending(s))
  {
    if s != [] {
      SortNonIncreasing(s[1..]);
      InsertNonIncreasing(s[0], SortByScoreDescending(s[1..]));
    }
  }

  lemma {:induction false} InsertWithScore(x: Pair, s: seq<Pair>, v: int)
    ensures WithScore(Insert(x, s), v) == (if x.score == v then [x] else []) + WithScore(s, v)
  {
    var own := if x.score == v then [x] else [];
    if s == [] || x.score >= s[0].score {
      assert ([x] + s)[1..] == s;
    } else {
      var t := Insert(x, s[1..]);
      var head := if s[0].score == v then [s[0]] else [];
      assert ([s[0]] + t)[1..] == t;
      calc {
        WithScore(Insert(x, s), v);
        WithScore([s[0]] + t, v);
        head + WithScore(t, v);
        { InsertWithScore(x, s[1..], v); }
        head + (own + WithScore(s[1..], v));
        { assert x.score == v ==> head == []; }
        own + (head + WithScore(s[1..], v));
        own + WithScore(s, v);
      }
    }
  }

  /** The sort is stable: for every score, the elements carrying it come out in
      the order they went in. */
  lemma {:induction false} SortStable(s: seq<Pair>, v: int)
    ensures WithScore(SortByScoreDescending(s), v) == WithScore(s, v)
  {
    if s != [] {
      SortStable(s[1..], v);
      InsertWithScore(s[0], SortByScoreDescending(s[1..]), v);
    }
  }

  lemma {:induction false} InsertInOrder(x: Pair, s: seq<Pair>)
    requires InOrder(s)
    requires forall p :: p in s ==> x.index < p.index
    ensures InOrder(Insert(x, s))
  {
    if s == [] || x.score >= s[0].score {
      forall j | 0 <= j < |s|
        ensures Precedes(x, s[j])
      {
        assert s[j] in s;
        assert j == 0 || Precedes(s[0], s[j]);
      }
    } else {
      var t := Insert(x, s[1..]);
      InsertInOrder(x, s[1..]);
      InsertPermutes(x, s[1..]);
      forall j | 0 <= j < |t|
        ensures Precedes(s[0], t[j])
      {
        assert t[j] in multiset(t);
        if t[j] != x {
          assert t[j] in s[1..];
          var m :| 0 <= m < |s[1..]| && s[1..][m] == t[j];
          assert Precedes(s[0], s[m + 1]);
        }
      }
    }
  }

  /** Sorting the output of `enumerate` (positions increasing) orders it by
      descending score with ties in ascending position: the stability of the
      sort, seen on `enumerate` output. */
  lemma {:induction false} SortInOrder(s: seq<Pair>)
    requires IndicesIncreasing(s)
    ensures InOrder(SortByScoreDescending(s))
  {
    if s != [] {
      var t := SortByScoreDescending(s[1..]);
      SortInOrder(s[1..]);
      SortPermutes(s[1..]);
      forall p | p in t
        ensures s[0].index < p.index
      {
        assert p in multiset(t);
        assert p in s[1..];
        var m :| 0 <= m < |s[1..]| && s[1..][m] == p;
        assert s[m + 1] == p;
      }
      InsertInOrder(s[0], t);
    }
  }

  /** Two sequences with the same elements, both in `Precedes` order, start
      with the same element: the least one. */
  lemma InOrderSameFirst(a: seq<Pair>, b: seq<Pair>)
    requires InOrder(a) && InOrder(b)
    requires multiset(a) == multiset(b)
    requires a != []
    ensures b != [] && a[0] == b[0]
  {
    assert a[0] in multiset(b);
    var j :| 0 <= j < |b| && b[j] == a[0];
    assert b[0] in multiset(a);
    var i :| 0 <= i < |a| && a[i] == b[0];
    if i != 0 && j != 0 {
      // a[0] would precede b[0] in a, and b[0] would precede a[0] in b.
      assert false;
    }
  }

  /** There is only one arrangement of a collection of pairs in `Precedes`
      order, so InOrder and the multiset determine the sort's result. */
  lemma {:induction false} InOrderUnique(a: seq<Pair>, b: seq<Pair>)
    requires InOrder(a) && InOrder(b)
    requires multiset(a) == multiset(b)
    ensures a == b
  {
    if a == [] {
      assert |b| == |multiset(b)| == 0;
    } else {
      InOrderSameFirst(a, b);
      assert a == [a[0]] + a[1..];
      assert b == [b[0]] + b[1..];
      assert multiset(a[1..]) == multiset(a) - multiset{a[0]};
      assert multiset(b[1..]) == multiset(b) - multiset{b[0]};
      InOrderUnique(a[1..], b[1..]);
    }
  }
}
