/**
 * The ranking step of `GeminiClient._get_similar_tweets`:
 * `np.argsort(similarities)[-top_k:][::-1]`, over scores abstracted to reals.
 */
module Retrieval {

  function Min(a: int, b: int): int { if a <= b then a else b }
  function Max(a: int, b: int): int { if a <= b then b else a }

  /**
   * The contract of `np.argsort`: `order` lists every index of `scores` exactly once, in
   * non-decreasing score order. Nothing is said about the order of equal scores.
   */
  ghost predicate IsArgSort(scores: seq<real>, order: seq<nat>) {
    && |order| == |scores|
    && (forall p :: 0 <= p < |order| ==> order[p] < |scores|)
    && (forall p, q :: 0 <= p < q < |order| ==> order[p] != order[q])
    && (forall k :: 0 <= k < |scores| ==> k in order)
    && (forall p, q :: 0 <= p < q < |order| ==> scores[order[p]] <= scores[order[q]])
  }

  /**
   * `picked` is a best-first selection: distinct indices of `scores`, in non-increasing score
   * order, and no index left out scores higher than any index picked.
   */
  ghost predicate IsDescendingTop(scores: seq<real>, picked: seq<nat>) {
    && (forall p :: 0 <= p < |picked| ==> picked[p] < |scores|)
    && (forall p, q :: 0 <= p < q < |picked| ==> picked[p] != picked[q])
    && (forall p, q :: 0 <= p < q < |picked| ==> scores[picked[p]] >= scores[picked[q]])
    && (forall p, k :: 0 <= p < |picked| && 0 <= k < |scores| && k !in picked ==> scores[k] <= scores[picked[p]])
  }

  /** `order` is an argsort of the first `i` scores. */
  ghost predicate SortsPrefix(scores: seq<real>, order: seq<nat>, i: nat)
    requires i <= |scores|
  {
    && |order| == i
    && (forall p :: 0 <= p < |order| ==> order[p] < i)
    && (forall p, q :: 0 <= p < q < |order| ==> order[p] != order[q])
    && (forall k :: 0 <= k < i ==> k in order)
    && (forall p, q :: 0 <= p < q < |order| ==> scores[order[p]] <= scores[order[q]])
  }

  /** Inserting index `i` before the first strictly higher score extends an argsort of `i` scores to `i + 1`. */
  lemma InsertStep(scores: seq<real>, order: seq<nat>, i: nat, pos: nat)
    requires i < |scores| && SortsPrefix(scores, order, i)
    requires pos <= |order|
    requires forall p :: 0 <= p < pos ==> scores[order[p]] <= scores[i]
    requires pos < |order| ==> scores[order[pos]] > scores[i]
    ensures SortsPrefix(scores, order[..pos] + [i] + order[pos..], i + 1)
  {
    var next := order[..pos] + [i] + order[pos..];
    assert forall p :: 0 <= p < pos ==> next[p] == order[p];
    assert next[pos] == i;
    assert forall p :: pos < p < |next| ==> next[p] == order[p - 1];
    InsertKeepsIndices(order, i, pos);
  }

  /** Inserting a new index `i` into a listing of `0 .. i-1` gives a listing of `0 .. i`. */
  lemma InsertKeepsIndices(order: seq<nat>, i: nat, pos: nat)
    requires |order| == i && pos <= i
    requires forall k :: 0 <= k < i ==> k in order
    ensures forall k :: 0 <= k < i + 1 ==> k in order[..pos] + [i] + order[pos..]
  {
    var next := order[..pos] + [i] + order[pos..];
    forall k | 0 <= k < i + 1
      ensures k in next
    {
      if k < i {
        assert k in order;
        var q :| 0 <= q < |order| && order[q] == k;
        assert next[if q < pos then q else q + 1] == k;
      }
    }
  }

  /** `np.argsort`, as an insertion sort of the indices (which tie order it picks is not part of the contract). */
  method ArgSort(scores: seq<real>) returns (order: seq<nat>)
    ensures IsArgSort(scores, order)
  {
    order := [];
    for i := 0 to |scores|
      invariant SortsPrefix(scores, order, i)
    {
      var pos := 0;
      while pos < |order| && scores[order[pos]] <= scores[i]
        invariant 0 <= pos <= |order|
        invariant forall p :: 0 <= p < pos ==> scores[order[p]] <= scores[i]
      {
        pos := pos + 1;
      }
      InsertStep(scores, order, i, pos);
      order := order[..pos] + [i] + order[pos..];
    }
  }

  /** The index where Python's slice `xs[-k:]` starts, for a list of length `n`. */
  function SliceStart(n: nat, k: int): (start: nat)
    ensures start <= n
    ensures k >= 1 ==> n - start == Min(k, n)
    ensures k == 0 ==> n - start == n
    ensures k < 0 ==> n - start == Max(n + k, 0)
  {
    if k > 0 then Max(n - k, 0)
    else if k == 0 then 0
    else Min(-k, n)
  }

  /** Python's `xs[::-1]`. */
  function Reverse<T>(s: seq<T>): seq<T> {
    seq(|s|, i requires 0 <= i < |s| => s[|s| - 1 - i])
  }

  /** The reversed tail of an argsort is a best-first selection, whatever the tail's length. */
  lemma ReversedTailIsTop(scores: seq<real>, order: seq<nat>, start: nat)
    requires IsArgSort(scores, order)
    requires start <= |order|
    ensures IsDescendingTop(scores, Reverse(order[start..]))
  {
    var picked := Reverse(order[start..]);
    var n := |order|;
    assert forall p :: 0 <= p < |picked| ==> picked[p] == order[n - 1 - p];
    assert forall j :: start <= j < n ==> order[j] in picked by {
      forall j | start <= j < n
        ensures order[j] in picked
      {
        assert picked[n - 1 - j] == order[j];
      }
    }
    forall p, k | 0 <= p < |picked| && 0 <= k < |scores| && k !in picked
      ensures scores[k] <= scores[picked[p]]
    {
      assert k in order;
      var q :| 0 <= q < n && order[q] == k;
      assert q < start;
      assert scores[order[q]] <= scores[order[n - 1 - p]];
    }
  }

  /** `np.argsort(scores)[-top_k:][::-1]`: the indices of the best scores, best first. */
  method SelectTop(scores: seq<real>, topK: int) returns (picked: seq<nat>)
    ensures IsDescendingTop(scores, picked)
    ensures topK >= 1 ==> |picked| == Min(topK, |scores|)
    ensures topK == 0 ==> |picked| == |scores|
    ensures topK < 0 ==> |picked| == Max(|scores| + topK, 0)
  {
    var order := ArgSort(scores);
    var start := SliceStart(|scores|, topK);
    picked := Reverse(order[start..]);
    ReversedTailIsTop(scores, order, start);
  }
}
