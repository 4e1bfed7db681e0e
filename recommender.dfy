/** The ranking and selection step of `get_recommendations` (app.py:94-120).
    The TF-IDF vectorisation and cosine similarity are foreign calls: their
    outcome is an input, either the n-by-n score matrix or the fact that they
    raised. Rows of the DataFrame are identified by their 0-based position,
    which is also the label `.index[0]` returns for a freshly read CSV. */
module Recommender {
  import opened PythonLists

  datatype Option<T> = None | Some(value: T)
  datatype Result<T, E> = Ok(value: T) | Err(error: E)

  /** What can raise inside the `try` block. */
  datatype Failure =
    | VectorizerRaised   // lines 97-104: e.g. an empty vocabulary or a missing value in `content`
    | TitleNotFound      // line 107: `.index[0]` on an empty selection

  /** The outcome of the TF-IDF and cosine-similarity calls (lines 97-104). */
  datatype Similarity = Computed(cosineSim: seq<seq<int>>) | VectorizerFailed

  /** `cosine_similarity(X, X)` is n-by-n for a corpus of n rows. */
  predicate Square(m: seq<seq<int>>, n: nat) {
    |m| == n && forall i :: 0 <= i < n ==> |m[i]| == n
  }

  predicate WellShaped(titles: seq<string>, sim: Similarity) {
    sim.Computed? ==> Square(sim.cosineSim, |titles|)
  }

  /** The position of `movies_df[movies_df['title'] == query].index[0]`, or None
      where that expression raises: the first row whose title is `query`. */
  function FirstIndexOf(titles: seq<string>, query: string): (r: Option<nat>)
    ensures r.Some? <==> query in titles
    ensures r.Some? ==> r.value < |titles| && titles[r.value] == query
    ensures r.Some? ==> forall j :: 0 <= j < r.value ==> titles[j] != query
  {
    if titles == [] then None
    else if titles[0] == query then Some(0)
    else
      match FirstIndexOf(titles[1..], query)
      case None => None
      case Some(i) => Some(i + 1)
  }

  /** `sorted(list(enumerate(row)), key=lambda x: x[1], reverse=True)` (lines 110-111). */
  function Ranked(row: seq<int>): (r: seq<Pair>)
    ensures |r| == |row|
  {
    SortPermutes(Enumerate(row));
    SortByScoreDescending(Enumerate(row))
  }

  /** `movies_df.head(k)` (line 120), as row positions. */
  function Head(n: nat, k: nat): (r: seq<nat>) {
    seq(Min(k, n), i requires 0 <= i < Min(k, n) => i as nat)
  }

  /** The ranking is a permutation of the row's positions, each paired with its
      own score, in descending score order with ties in ascending position. */
  lemma RankedPermutesRow(row: seq<int>)
    ensures |Ranked(row)| == |row|
    ensures forall i :: 0 <= i < |row| ==>
      Ranked(row)[i].index < |row| && Ranked(row)[i].score == row[Ranked(row)[i].index]
    ensures forall q :: 0 <= q < |row| ==> Pair(q, row[q]) in Ranked(row)
    ensures InOrder(Ranked(row))
    ensures DistinctIndices(Ranked(row))
  {
    var e := Enumerate(row);
    var r := Ranked(row);
    SortPermutes(e);
    SortInOrder(e);
    forall i | 0 <= i < |r|
      ensures r[i].index < |row| && r[i].score == row[r[i].index]
    {
      assert r[i] in multiset(r);
      assert r[i] in e;
    }
    forall q | 0 <= q < |row|
      ensures Pair(q, row[q]) in r
    {
      assert e[q] in multiset(e);
    }
  }

  /** Any rearrangement of `enumerate(row)` that is in descending score order,
      ties in ascending position, is the ranking: the result of the stable sort
      is fully determined by the scores. */
  lemma RankedIsUnique(row: seq<int>, s: seq<Pair>)
    requires multiset(s) == multiset(Enumerate(row))
    requires InOrder(s)
    ensures s == Ranked(row)
  {
    SortPermutes(Enumerate(row));
    SortInOrder(Enumerate(row));
    InOrderUnique(s, Ranked(row));
  }

  /** The body of the `try` block (lines 97-117): the similarity stage, the
      title lookup, the ranking, `sim_scores[1:k+1]` and the projection onto
      row positions. */
  function TryRecommend(titles: seq<string>, sim: Similarity, query: string, k: nat)
    : (r: Result<seq<nat>, Failure>)
    requires WellShaped(titles, sim)
    ensures r.Err? <==> sim.VectorizerFailed? || query !in titles
    ensures r.Err? ==> r.error == if sim.VectorizerFailed? then VectorizerRaised else TitleNotFound
    ensures r.Ok? ==> |r.value| == Min(k, |titles| - 1)
    ensures r.Ok? ==> forall i :: 0 <= i < |r.value| ==> r.value[i] < |titles|
    ensures r.Ok? ==> forall i, j :: 0 <= i < j < |r.value| ==> r.value[i] != r.value[j]
  {
    match sim
    case VectorizerFailed => Err(VectorizerRaised)
    case Computed(cosineSim) =>
      match FirstIndexOf(titles, query)
      case None => Err(TitleNotFound)
      case Some(idx) =>
        RankedPermutesRow(cosineSim[idx]);
        Ok(Indices(Slice(Ranked(cosineSim[idx]), 1, k + 1)))
  }

  /** `get_recommendations(query, movies_df, k)` (lines 94-120), as the row
      positions of the DataFrame it returns: on any exception, the first k rows. */
  function Recommend(titles: seq<string>, sim: Similarity, query: string, k: nat): (r: seq<nat>)
    requires WellShaped(titles, sim)
    ensures |r| == Min(k, if sim.Computed? && query in titles then |titles| - 1 else |titles|)
    ensures forall i :: 0 <= i < |r| ==> r[i] < |titles|
    ensures forall i, j :: 0 <= i < j < |r| ==> r[i] != r[j]
    ensures sim.VectorizerFailed? || query !in titles ==> forall i :: 0 <= i < |r| ==> r[i] == i
  {
    match TryRecommend(titles, sim, query, k)
    case Ok(rows) => rows
    case Err(_) => Head(|titles|, k)
  }

  /** `idx` is the row the lookup at line 107 selects. */
  predicate FirstMatch(titles: seq<string>, query: string, idx: nat) {
    idx < |titles| && titles[idx] == query && forall j :: 0 <= j < idx ==> titles[j] != query
  }

  /** Only the first row titled `query` is read: the result is the ranking of
      that row with its top entry dropped, cut to k entries. Later rows with
      the same title make no difference. */
  lemma RecommendUsesFirstMatch(titles: seq<string>, m: seq<seq<int>>, query: string, k: nat, idx: nat)
    requires Square(m, |titles|)
    requires FirstMatch(titles, query, idx)
    ensures Recommend(titles, Computed(m), query, k) == Indices(Ranked(m[idx]))[1..Min(k + 1, |titles|)]
  {
  }

  /** The returned rows are in descending order of their score against the
      query row, and rows with equal scores come in corpus order. */
  lemma RecommendInOrder(titles: seq<string>, m: seq<seq<int>>, query: string, k: nat, idx: nat)
    requires Square(m, |titles|)
    requires FirstMatch(titles, query, idx)
    ensures var r := Recommend(titles, Computed(m), query, k);
      forall i, j :: 0 <= i < j < |r| ==>
        m[idx][r[i]] > m[idx][r[j]] || (m[idx][r[i]] == m[idx][r[j]] && r[i] < r[j])
  {
    var row := m[idx];
    var ranked := Ranked(row);
    var r := Recommend(titles, Computed(m), query, k);
    RecommendUsesFirstMatch(titles, m, query, k, idx);
    RankedPermutesRow(row);
    forall i, j | 0 <= i < j < |r|
      ensures row[r[i]] > row[r[j]] || (row[r[i]] == row[r[j]] && r[i] < r[j])
    {
      assert r[i] == ranked[i + 1].index && r[j] == ranked[j + 1].index;
      assert Precedes(ranked[i + 1], ranked[j + 1]);
    }
  }

  /** The entry dropped at line 114 is the query row exactly when no other row
      outranks it: no row scores higher, and no earlier row scores the same. */
  lemma TopRankedIff(row: seq<int>, q: nat)
    requires q < |row|
    ensures Ranked(row)[0].index == q <==>
      forall j :: 0 <= j < |row| && j != q ==> row[j] < row[q] || (row[j] == row[q] && q < j)
  {
    var r := Ranked(row);
    RankedPermutesRow(row);
    assert Pair(q, row[q]) in r;
    var i :| 0 <= i < |r| && r[i] == Pair(q, row[q]);
    if r[0].index == q {
      forall j | 0 <= j < |row| && j != q
        ensures row[j] < row[q] || (row[j] == row[q] && q < j)
      {
        assert Pair(j, row[j]) in r;
        var t :| 0 <= t < |r| && r[t] == Pair(j, row[j]);
        assert Precedes(r[0], r[t]);
      }
    }
    if r[0].index != q {
      // Row r[0].index outranks q, so it is a j the right-hand side excludes.
      var p := r[0].index;
      assert i != 0 && Precedes(r[0], r[i]);
      assert p != q && !(row[p] < row[q] || (row[p] == row[q] && q < p));
    }
  }

  /** The query row is among the results exactly when its place in the ranking
      is between 1 and k: it is left out when it ranks first (the entry dropped)
      or after the first k + 1. */
  lemma QueryReturnedIff(titles: seq<string>, m: seq<seq<int>>, query: string, k: nat, idx: nat, i: nat)
    requires Square(m, |titles|)
    requires FirstMatch(titles, query, idx)
    requires i < |titles| && Ranked(m[idx])[i].index == idx
    ensures idx in Recommend(titles, Computed(m), query, k) <==> 1 <= i <= k
  {
    var ranked := Ranked(m[idx]);
    var r := Recommend(titles, Computed(m), query, k);
    RecommendUsesFirstMatch(titles, m, query, k, idx);
    RankedPermutesRow(m[idx]);
    if 1 <= i <= k {
      assert r[i - 1] == idx;
    }
    if idx in r {
      var t :| 0 <= t < |r| && r[t] == idx;
      assert ranked[t + 1].index == idx;
    }
  }

  /** As written, line 114 can return the query itself: when an earlier row
      scores at least as high against the query as the query scores against
      itself (two rows with the same content, say), the earlier row ranks first
      and is the one dropped. */
  lemma SelfReturnedOnEarlierTie(titles: seq<string>, m: seq<seq<int>>, query: string, k: nat, idx: nat, j: nat)
    requires Square(m, |titles|)
    requires FirstMatch(titles, query, idx)
    requires j < idx && m[idx][j] >= m[idx][idx]
    requires k + 1 >= |titles|
    ensures idx in Recommend(titles, Computed(m), query, k)
  {
    var ranked := Ranked(m[idx]);
    RankedPermutesRow(m[idx]);
    assert Pair(idx, m[idx][idx]) in ranked;
    var i :| 0 <= i < |ranked| && ranked[i] == Pair(idx, m[idx][idx]);
    TopRankedIff(m[idx], idx);
    QueryReturnedIff(titles, m, query, k, idx, i);
  }

  /** As written, for a corpus of any size: when the query's self-score is the
      highest in its row (as a cosine self-similarity is) and exactly one
      earlier row `j` ties with it, `j` ranks first and is the entry dropped,
      the query ranks second, and so for any k >= 1 the query is recommended to
      itself while its twin `j` is missing. */
  lemma SelfReturnedTwinDropped(titles: seq<string>, m: seq<seq<int>>, query: string, k: nat, idx: nat, j: nat)
    requires Square(m, |titles|)
    requires FirstMatch(titles, query, idx)
    requires forall p :: 0 <= p < |titles| ==> m[idx][p] <= m[idx][idx]
    requires j < idx && m[idx][j] == m[idx][idx]
    requires forall p :: 0 <= p < idx && p != j ==> m[idx][p] < m[idx][idx]
    requires k >= 1
    ensures idx in Recommend(titles, Computed(m), query, k)
    ensures j !in Recommend(titles, Computed(m), query, k)
  {
    var ranked := Ranked(m[idx]);
    var r := Recommend(titles, Computed(m), query, k);
    TwinFirstQuerySecond(m[idx], idx, j);
    QueryReturnedIff(titles, m, query, k, idx, 1);
    RankedPermutesRow(m[idx]);
    RecommendUsesFirstMatch(titles, m, query, k, idx);
    forall t | 0 <= t < |r|
      ensures r[t] != j
    {
      assert r[t] == ranked[t + 1].index;
    }
  }

  /** With the query's self-score the highest in its row and exactly one
      earlier row tying with it, that row ranks first and the query second. */
  lemma TwinFirstQuerySecond(row: seq<int>, q: nat, j: nat)
    requires q < |row|
    requires forall p :: 0 <= p < |row| ==> row[p] <= row[q]
    requires j < q && row[j] == row[q]
    requires forall p :: 0 <= p < q && p != j ==> row[p] < row[q]
    ensures Ranked(row)[0].index == j && Ranked(row)[1].index == q
  {
    var ranked := Ranked(row);
    RankedPermutesRow(row);
    TopRankedIff(row, j);
    assert Pair(q, row[q]) in ranked;
    var i :| 0 <= i < |ranked| && ranked[i] == Pair(q, row[q]);
    var second := ranked[1].index;
    assert second != j;
    assert !(row[second] > row[q]);
    assert i == 1;
  }

  /** A two-row corpus of identical content, queried by the second title. */
  lemma SelfReturnedExample()
    ensures Recommend(["Heat", "Heat (1995)"], Computed([[1, 1], [1, 1]]), "Heat (1995)", 6) == [1]
  {
  }

  /** The ranking of a row with the pairs of row `q` removed. */
  function Without(s: seq<Pair>, q: nat): (r: seq<Pair>)
    ensures forall p :: p in r <==> p in s && p.index != q
  {
    if s == [] then []
    else (if s[0].index == q then [] else [s[0]]) + Without(s[1..], q)
  }

  lemma {:induction false} WithoutKeepsOrder(s: seq<Pair>, q: nat)
    requires InOrder(s)
    ensures InOrder(Without(s, q))
  {
    if s != [] {
      WithoutKeepsOrder(s[1..], q);
      var t := Without(s[1..], q);
      forall j | 0 <= j < |t|
        ensures Precedes(s[0], t[j])
      {
        assert t[j] in t;
        var m :| 0 <= m < |s[1..]| && s[1..][m] == t[j];
        assert Precedes(s[0], s[m + 1]);
      }
    }
  }

  lemma {:induction false} WithoutLength(s: seq<Pair>, q: nat, i: nat)
    requires DistinctIndices(s)
    requires i < |s| && s[i].index == q
    ensures |Without(s, q)| == |s| - 1
    ensures DistinctIndices(Without(s, q))
  {
    if i == 0 {
      WithoutAbsent(s[1..], q);
    } else {
      WithoutLength(s[1..], q, i - 1);
    }
    WithoutDistinct(s, q);
  }

  lemma {:induction false} WithoutAbsent(s: seq<Pair>, q: nat)
    requires forall i :: 0 <= i < |s| ==> s[i].index != q
    ensures Without(s, q) == s
  {
    if s != [] {
      WithoutAbsent(s[1..], q);
    }
  }

  lemma {:induction false} WithoutDistinct(s: seq<Pair>, q: nat)
    requires DistinctIndices(s)
    ensures DistinctIndices(Without(s, q))
  {
    if s != [] {
      WithoutDistinct(s[1..], q);
      var t := Without(s[1..], q);
      forall j | 0 <= j < |t|
        ensures s[0].index != t[j].index
      {
        assert t[j] in t;
        var m :| 0 <= m < |s[1..]| && s[1..][m] == t[j];
        assert s[m + 1] == t[j];
      }
    }
  }

  /** What line 114 evidently intends: rank the query row's scores, remove the
      query row itself wherever it ranks, and keep the first k. */
  function RecommendExcludingQuery(titles: seq<string>, sim: Similarity, query: string, k: nat): (r: seq<nat>)
    requires WellShaped(titles, sim)
    ensures |r| == Min(k, if sim.Computed? && query in titles then |titles| - 1 else |titles|)
    ensures forall i :: 0 <= i < |r| ==> r[i] < |titles|
    ensures forall i, j :: 0 <= i < j < |r| ==> r[i] != r[j]
    ensures sim.Computed? && query in titles ==> FirstIndexOf(titles, query).value !in r
    ensures sim.VectorizerFailed? || query !in titles ==> r == Head(|titles|, k)
  {
    match sim
    case VectorizerFailed => Head(|titles|, k)
    case Computed(cosineSim) =>
      match FirstIndexOf(titles, query)
      case None => Head(|titles|, k)
      case Some(idx) =>
        ExcludingQuerySelects(cosineSim[idx], idx, k);
        Indices(Slice(Without(Ranked(cosineSim[idx]), idx), 0, k))
  }

  lemma ExcludingQuerySelects(row: seq<int>, q: nat, k: nat)
    requires q < |row|
    ensures var r := Indices(Slice(Without(Ranked(row), q), 0, k));
      && |r| == Min(k, |row| - 1)
      && (forall i :: 0 <= i < |r| ==> r[i] < |row| && r[i] != q)
      && (forall i, j :: 0 <= i < j < |r| ==> r[i] != r[j])
  {
    var kept := Without(Ranked(row), q);
    WithoutQueryRow(row, q);
    var s := Slice(kept, 0, k);
    assert forall i :: 0 <= i < |s| ==> s[i] == kept[i];
  }

  /** The ranking without the query row: the n - 1 other rows, each with its
      own score, distinct and still in ranking order. */
  lemma WithoutQueryRow(row: seq<int>, q: nat)
    requires q < |row|
    ensures var kept := Without(Ranked(row), q);
      && |kept| == |row| - 1
      && DistinctIndices(kept)
      && InOrder(kept)
      && (forall t :: 0 <= t < |kept| ==>
            kept[t].index < |row| && kept[t].index != q && kept[t].score == row[kept[t].index])
      && (forall p :: 0 <= p < |row| && p != q ==> Pair(p, row[p]) in kept)
  {
    var ranked := Ranked(row);
    RankedPermutesRow(row);
    WithoutKeepsOrder(ranked, q);
    assert Pair(q, row[q]) in ranked;
    var i :| 0 <= i < |ranked| && ranked[i] == Pair(q, row[q]);
    WithoutLength(ranked, q, i);
    var kept := Without(ranked, q);
    forall t | 0 <= t < |kept|
      ensures kept[t].index < |row| && kept[t].index != q && kept[t].score == row[kept[t].index]
    {
      assert kept[t] in kept;
      var m :| 0 <= m < |ranked| && ranked[m] == kept[t];
    }
  }

  /** The corrected selection keeps the ranking order of the query row. */
  lemma ExcludingQueryInOrder(titles: seq<string>, m: seq<seq<int>>, query: string, k: nat, idx: nat)
    requires Square(m, |titles|)
    requires FirstMatch(titles, query, idx)
    ensures var r := RecommendExcludingQuery(titles, Computed(m), query, k);
      forall i, j :: 0 <= i < j < |r| ==>
        m[idx][r[i]] > m[idx][r[j]] || (m[idx][r[i]] == m[idx][r[j]] && r[i] < r[j])
  {
    var row := m[idx];
    var kept := Without(Ranked(row), idx);
    var r := RecommendExcludingQuery(titles, Computed(m), query, k);
    assert FirstIndexOf(titles, query) == Some(idx);
    RankedPermutesRow(row);
    WithoutKeepsOrder(Ranked(row), idx);
    forall i, j | 0 <= i < j < |r|
      ensures row[r[i]] > row[r[j]] || (row[r[i]] == row[r[j]] && r[i] < r[j])
    {
      assert r[i] == kept[i].index && r[j] == kept[j].index;
      assert kept[i] in Ranked(row) && kept[j] in Ranked(row);
      assert Precedes(kept[i], kept[j]);
    }
  }

  /** As written, the returned rows are the best-ranked ones: every row that
      is neither returned nor the dropped top entry is outranked by each
      returned row. */
  lemma RecommendIsTopK(titles: seq<string>, m: seq<seq<int>>, query: string, k: nat, idx: nat)
    requires Square(m, |titles|)
    requires FirstMatch(titles, query, idx)
    ensures var r := Recommend(titles, Computed(m), query, k);
      forall p, i :: 0 <= p < |titles| && p != Ranked(m[idx])[0].index && p !in r && 0 <= i < |r| ==>
        m[idx][r[i]] > m[idx][p] || (m[idx][r[i]] == m[idx][p] && r[i] < p)
  {
    var row := m[idx];
    var ranked := Ranked(row);
    var r := Recommend(titles, Computed(m), query, k);
    RankedPermutesRow(row);
    RecommendUsesFirstMatch(titles, m, query, k, idx);
    forall p, i | 0 <= p < |titles| && p != ranked[0].index && p !in r && 0 <= i < |r|
      ensures row[r[i]] > row[p] || (row[r[i]] == row[p] && r[i] < p)
    {
      assert Pair(p, row[p]) in ranked;
      var t :| 0 <= t < |ranked| && ranked[t] == Pair(p, row[p]);
      assert Indices(ranked)[t] == p;
      assert t == 0 || t >= Min(k + 1, |titles|);
      assert t > i + 1;
      assert r[i] == ranked[i + 1].index;
      assert Precedes(ranked[i + 1], ranked[t]);
    }
  }

  /** The corrected selection returns the next k rows: every row other than
      the query that is not returned is outranked by each returned row. */
  lemma ExcludingQueryIsTopK(titles: seq<string>, m: seq<seq<int>>, query: string, k: nat, idx: nat)
    requires Square(m, |titles|)
    requires FirstMatch(titles, query, idx)
    ensures var r := RecommendExcludingQuery(titles, Computed(m), query, k);
      forall p, i :: 0 <= p < |titles| && p != idx && p !in r && 0 <= i < |r| ==>
        m[idx][r[i]] > m[idx][p] || (m[idx][r[i]] == m[idx][p] && r[i] < p)
  {
    var row := m[idx];
    var kept := Without(Ranked(row), idx);
    var c := Min(k, |titles| - 1);
    var r := RecommendExcludingQuery(titles, Computed(m), query, k);
    ExcludingQueryTakesPrefix(titles, m, query, k, idx);
    PrefixIsTopK(kept, c);
    forall p, i | 0 <= p < |titles| && p != idx && p !in r && 0 <= i < |r|
      ensures row[r[i]] > row[p] || (row[r[i]] == row[p] && r[i] < p)
    {
      var x := Pair(p, row[p]);
      assert x in kept;
      assert r[i] == kept[i].index;
      assert p !in Indices(kept)[..c];
      assert Precedes(kept[i], x);
    }
  }

  /** The corrected selection is the first `min(k, n-1)` rows of the ranking
      with the query row removed, which is still ordered and holds every other
      row with its own score. */
  lemma ExcludingQueryTakesPrefix(titles: seq<string>, m: seq<seq<int>>, query: string, k: nat, idx: nat)
    requires Square(m, |titles|)
    requires FirstMatch(titles, query, idx)
    ensures var kept := Without(Ranked(m[idx]), idx);
      && Min(k, |titles| - 1) <= |kept|
      && RecommendExcludingQuery(titles, Computed(m), query, k) == Indices(kept)[..Min(k, |titles| - 1)]
      && InOrder(kept)
      && (forall p :: 0 <= p < |titles| && p != idx ==> Pair(p, m[idx][p]) in kept)
      && (forall t :: 0 <= t < |kept| ==> kept[t].index < |titles| && kept[t].score == m[idx][kept[t].index])
  {
    var kept := Without(Ranked(m[idx]), idx);
    var r := RecommendExcludingQuery(titles, Computed(m), query, k);
    assert FirstIndexOf(titles, query) == Some(idx);
    WithoutQueryRow(m[idx], idx);
    assert r == Indices(Slice(kept, 0, k));
    var prefix := Indices(kept)[..Min(k, |titles| - 1)];
    assert |r| == |prefix|;
    forall u | 0 <= u < |r|
      ensures r[u] == prefix[u]
    {
    }
  }

  /** In an ordered sequence, each element of a prefix outranks every element
      whose row does not appear in that prefix. */
  lemma PrefixIsTopK(s: seq<Pair>, c: nat)
    requires InOrder(s) && c <= |s|
    ensures forall x, i :: x in s && x.index !in Indices(s)[..c] && 0 <= i < c ==> Precedes(s[i], x)
  {
    forall x, i | x in s && x.index !in Indices(s)[..c] && 0 <= i < c
      ensures Precedes(s[i], x)
    {
      var t :| 0 <= t < |s| && s[t] == x;
      assert forall u :: 0 <= u < c ==> Indices(s)[..c][u] == s[u].index;
      assert t >= c;
    }
  }

  /** Where the query row does rank first, the code as written and the
      corrected selection return the same rows. */
  lemma ExcludingQueryAgreesWhenTop(titles: seq<string>, m: seq<seq<int>>, query: string, k: nat, idx: nat)
    requires Square(m, |titles|)
    requires FirstMatch(titles, query, idx)
    requires Ranked(m[idx])[0].index == idx
    ensures RecommendExcludingQuery(titles, Computed(m), query, k) == Recommend(titles, Computed(m), query, k)
  {
    var ranked := Ranked(m[idx]);
    RankedPermutesRow(m[idx]);
    RecommendUsesFirstMatch(titles, m, query, k, idx);
    assert FirstIndexOf(titles, query) == Some(idx);
    assert ranked == [ranked[0]] + ranked[1..];
    WithoutAbsent(ranked[1..], idx);
    assert Without(ranked, idx) == ranked[1..];
    var fixed := RecommendExcludingQuery(titles, Computed(m), query, k);
    var written := Recommend(titles, Computed(m), query, k);
    assert |fixed| == |written|;
    forall i | 0 <= i < |fixed|
      ensures fixed[i] == written[i]
    {
      assert fixed[i] == ranked[i + 1].index;
    }
  }
}
