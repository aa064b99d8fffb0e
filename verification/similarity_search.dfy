/** `SimilaritySearch.find_similar`: rank the rows of the feature matrix by a
    per-row score and return the best `top_k` as `(image path, score)` pairs.

    The scores themselves (cosine similarity or L2 distance, in floats) are
    an input, one real per row. So is the row order produced by
    `np.argsort(scores)`: numpy's default sort is not stable, so any
    permutation that sorts the scores ascending may come back, and the model
    accepts each of them. */
module SimilaritySearch {
  import opened Common

  const CosineTag := "cosine"

  /** The search object: the row keys and the metric tag. The matrix enters
      only through the scores it yields. */
  datatype SearchEngine = SearchEngine(imagePaths: seq<string>, metric: string)

  /** `order` may be returned by `np.argsort(scores)`: a permutation of the
      row indices along which the scores do not decrease. */
  predicate IsArgsort(scores: seq<real>, order: seq<nat>) {
    && |order| == |scores|
    && (forall j :: 0 <= j < |order| ==> order[j] < |scores|)
    && (forall i :: 0 <= i < |scores| ==> i in order)
    && Distinct(order)
    && (forall a, b :: 0 <= a < b < |order| ==> scores[order[a]] <= scores[order[b]])
  }

  predicate RowsIn(rows: seq<nat>, n: nat) {
    forall j :: 0 <= j < |rows| ==> rows[j] < n
  }

  predicate AscendingBy(scores: seq<real>, rows: seq<nat>)
    requires RowsIn(rows, |scores|)
  {
    forall a, b :: 0 <= a < b < |rows| ==> scores[rows[a]] <= scores[rows[b]]
  }

  /** Puts row `i` into `rows` (sorted by score) before the first row with
      a higher score. */
  function InsertRow(scores: seq<real>, rows: seq<nat>, i: nat): (r: seq<nat>)
    requires i < |scores| && RowsIn(rows, |scores|) && AscendingBy(scores, rows)
    ensures |r| == |rows| + 1
    ensures RowsIn(r, |scores|) && AscendingBy(scores, r)
    ensures forall x :: x in r <==> x in rows || x == i
    ensures Distinct(rows) && i !in rows ==> Distinct(r)
  {
    if |rows| == 0 || scores[i] < scores[rows[0]] then [i] + rows
    else
      var rest := InsertRow(scores, rows[1..], i);
      assert rows == [rows[0]] + rows[1..];
      assert forall k :: 0 <= k < |rest| ==> scores[rows[0]] <= scores[rest[k]] by {
        forall k | 0 <= k < |rest|
          ensures scores[rows[0]] <= scores[rest[k]]
        {
          assert rest[k] in rest;
        }
      }
      assert Distinct(rows) ==> rows[0] !in rows[1..] by {
        if Distinct(rows) {
          forall k | 0 <= k < |rows| - 1
            ensures rows[1..][k] != rows[0]
          {
            assert rows[1..][k] == rows[k + 1];
          }
        }
      }
      [rows[0]] + rest
  }

  /** Sorts the rows `0 .. n-1` by score. */
  function ArgsortPrefix(scores: seq<real>, n: nat): (r: seq<nat>)
    requires n <= |scores|
    ensures |r| == n
    ensures RowsIn(r, |scores|) && AscendingBy(scores, r) && Distinct(r)
    ensures forall x: int :: x in r <==> 0 <= x < n
  {
    if n == 0 then [] else InsertRow(scores, ArgsortPrefix(scores, n - 1), n - 1)
  }

  /** One argsort numpy may return (the stable one); it shows that every
      score sequence has an argsort. */
  function Argsort(scores: seq<real>): (order: seq<nat>)
    ensures IsArgsort(scores, order)
  {
    ArgsortPrefix(scores, |scores|)
  }

  /** Under `metric`, score `x` ranks no later than score `y`: higher
      cosine similarity is better; for any other tag lower distance is. */
  predicate NoWorse(metric: string, x: real, y: real) {
    if metric == CosineTag then x >= y else x <= y
  }

  /** All rows, best first: `order[::-1]` for cosine similarity, `order`
      for any other metric tag. */
  function Ranked(metric: string, order: seq<nat>): seq<nat> {
    if metric == CosineTag then Reverse(order) else order
  }

  /** Along `rows`, no row ranks better than an earlier one. */
  predicate RankedBy(metric: string, scores: seq<real>, rows: seq<nat>)
    requires RowsIn(rows, |scores|)
  {
    forall a, b :: 0 <= a < b < |rows| ==> NoWorse(metric, scores[rows[a]], scores[rows[b]])
  }

  /** The row indices `find_similar` reports: `order[::-1][:top_k]` or
      `order[:top_k]`. */
  function TopRows(metric: string, order: seq<nat>, topK: int): seq<nat> {
    Prefix(Ranked(metric, order), topK)
  }

  /** Reading an argsort in the metric's direction lists every row once,
      best first. */
  lemma RankedListsEveryRowBestFirst(scores: seq<real>, order: seq<nat>, metric: string)
    requires IsArgsort(scores, order)
    ensures var ranked := Ranked(metric, order);
      && |ranked| == |scores| && RowsIn(ranked, |scores|) && Distinct(ranked)
      && (forall i :: 0 <= i < |scores| ==> i in ranked)
      && RankedBy(metric, scores, ranked)
  {
    if metric == CosineTag {
      ReverseKeepsRows(order, |scores|);
      ReverseDescends(scores, order);
    }
  }

  lemma ReverseKeepsRows(order: seq<nat>, n: nat)
    requires RowsIn(order, n) && Distinct(order)
    requires forall i :: 0 <= i < n ==> i in order
    ensures RowsIn(Reverse(order), n) && Distinct(Reverse(order))
    ensures forall i :: 0 <= i < n ==> i in Reverse(order)
  {
    var r := Reverse(order);
    var m := |order|;
    forall a, b | 0 <= a < b < m
      ensures r[a] != r[b]
    {
      assert r[a] == order[m - 1 - a] && r[b] == order[m - 1 - b];
    }
    forall i | 0 <= i < n
      ensures i in r
    {
      assert i in order;
      var p :| 0 <= p < m && order[p] == i;
      assert r[m - 1 - p] == i;
    }
  }

  lemma ReverseDescends(scores: seq<real>, order: seq<nat>)
    requires RowsIn(order, |scores|) && AscendingBy(scores, order)
    ensures RowsIn(Reverse(order), |scores|)
    ensures forall a, b :: 0 <= a < b < |order| ==> scores[Reverse(order)[a]] >= scores[Reverse(order)[b]]
  {
    var r := Reverse(order);
    var m := |order|;
    forall a, b | 0 <= a < b < m
      ensures scores[r[a]] >= scores[r[b]]
    {
      assert r[a] == order[m - 1 - a] && r[b] == order[m - 1 - b];
    }
  }

  /** `find_similar(query, top_k)` given the scores of the query against
      every row and the argsort numpy produced for them. */
  function FindSimilar(engine: SearchEngine, scores: seq<real>, order: seq<nat>, topK: int): (hits: seq<(string, real)>)
    requires |scores| == |engine.imagePaths|
    requires IsArgsort(scores, order)
    ensures |hits| == SliceLen(|scores|, topK)
    ensures forall a, b :: 0 <= a < b < |hits| ==> NoWorse(engine.metric, hits[a].1, hits[b].1)
    ensures forall j :: 0 <= j < |hits| ==>
      var row := TopRows(engine.metric, order, topK)[j];
      row < |scores| && hits[j] == (engine.imagePaths[row], scores[row])
  {
    var rows := TopRows(engine.metric, order, topK);
    TopRowsRanked(scores, order, engine.metric, topK);
    seq(|rows|, j requires 0 <= j < |rows| => (engine.imagePaths[rows[j]], scores[rows[j]]))
  }

  /** The reported rows are distinct rows of the matrix, as many as the
      slice allows, ranked best first. */
  lemma TopRowsRanked(scores: seq<real>, order: seq<nat>, metric: string, topK: int)
    requires IsArgsort(scores, order)
    ensures var rows := TopRows(metric, order, topK);
      && |rows| == SliceLen(|scores|, topK)
      && RowsIn(rows, |scores|)
      && Distinct(rows)
      && RankedBy(metric, scores, rows)
  {
    RankedListsEveryRowBestFirst(scores, order, metric);
    var ranked := Ranked(metric, order);
    var rows := TopRows(metric, order, topK);
    assert rows == ranked[..|rows|];
  }

  /** No row left out ranks better than a row reported. */
  lemma TopRowsAreBest(scores: seq<real>, order: seq<nat>, metric: string, topK: int)
    requires IsArgsort(scores, order)
    ensures var rows := TopRows(metric, order, topK);
      forall i, j :: 0 <= i < |scores| && i !in rows && 0 <= j < |rows| ==>
        rows[j] < |scores| && NoWorse(metric, scores[rows[j]], scores[i])
  {
    RankedListsEveryRowBestFirst(scores, order, metric);
    var ranked := Ranked(metric, order);
    var rows := TopRows(metric, order, topK);
    assert rows == ranked[..|rows|];
    forall i, j | 0 <= i < |scores| && i !in rows && 0 <= j < |rows|
      ensures rows[j] < |scores| && NoWorse(metric, scores[rows[j]], scores[i])
    {
      assert i in ranked;
      var p :| 0 <= p < |ranked| && ranked[p] == i;
      assert j < p;
    }
  }
}
