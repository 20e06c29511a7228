/** The greedy deduplicator (`dedupe_headlines`). It walks the items in
    order, keeping the accepted items and the vectors of those accepted on
    semantic grounds. For an item whose embedding succeeds, the inner loop
    compares its vector with the recorded ones in order: the item is dropped
    at the first whose similarity is strictly above the threshold, and
    accepted with its vector recorded when there is none. An item whose
    embedding fails, or whose similarity cannot be computed, falls back to
    exact matching: it is kept when no accepted item has the same headline,
    and no vector is recorded for it.

    The embedder is an oracle: `embeddings[k]` is what the `k`-th call
    returns, a vector or a failure. Cosine similarity is the parameter `sim`,
    about which nothing is assumed; it is consulted only on two vectors of the
    same length, since on vectors of different lengths `np.dot` raises
    `ValueError`. */
module Dedupe {
  import opened Items
  import Retry

  type Vector = seq<real>
  type Similarity = (Vector, Vector) -> real

  /** What one call of the embedder gives: a vector, or an exception. */
  datatype Embedding = Embedded(vector: Vector) | EmbedFailed

  const DefaultThreshold: real := 0.85

  /** The state of the filter: the input positions of the accepted items, in
      order, and the vectors recorded so far. */
  datatype Accepted = Accepted(kept: seq<nat>, vectors: seq<Vector>)

  /** How the `try` block ends for one item: accepted with its vector, found
      to be a duplicate, or raising (the embedder failed or the similarity
      could not be computed), which sends the item to exact matching. */
  datatype Verdict = Distinct | Duplicate | Failed

  /** Every position is below `n`. */
  ghost predicate Below(kept: seq<nat>, n: nat) {
    forall k :: 0 <= k < |kept| ==> kept[k] < n
  }

  /** Positions below `n`, strictly increasing. */
  ghost predicate Increasing(kept: seq<nat>, n: nat) {
    Below(kept, n) && forall a, b :: 0 <= a < b < |kept| ==> kept[a] < kept[b]
  }

  /** The items at the given positions. */
  function Pick(items: seq<Item>, kept: seq<nat>): (r: seq<Item>)
    requires forall k :: 0 <= k < |kept| ==> kept[k] < |items|
    ensures |r| == |kept|
    ensures forall k :: 0 <= k < |kept| ==> r[k] == items[kept[k]]
  {
    seq(|kept|, k requires 0 <= k < |kept| => items[kept[k]])
  }

  /** `h in [u["headline"] for u in items]`. */
  predicate HeadlineTaken(items: seq<Item>, h: string) {
    exists k :: 0 <= k < |items| && items[k].headline == h
  }

  /** `w` does not make `v` a duplicate: the two have the same length, so the
      similarity can be computed, and it is at most the threshold. */
  predicate Apart(v: Vector, w: Vector, threshold: real, sim: Similarity) {
    |w| == |v| && sim(v, w) <= threshold
  }

  /** Every recorded vector is apart from `v`. */
  predicate SimilarToNone(v: Vector, seen: seq<Vector>, threshold: real, sim: Similarity) {
    forall k :: 0 <= k < |seen| ==> Apart(v, seen[k], threshold, sim)
  }

  /** No item at the given positions has headline `h`. */
  predicate HeadlineNew(items: seq<Item>, kept: seq<nat>, h: string)
    requires forall k :: 0 <= k < |kept| ==> kept[k] < |items|
  {
    forall k :: 0 <= k < |kept| ==> items[kept[k]].headline != h
  }

  /** The inner loop over the recorded vectors, in order: the first one of
      another length makes the similarity raise, the first one strictly more
      similar than the threshold makes a duplicate, and the item is distinct
      exactly when every recorded vector is apart from it. */
  function Compare(v: Vector, seen: seq<Vector>, threshold: real, sim: Similarity): (r: Verdict)
    ensures r == Distinct <==> SimilarToNone(v, seen, threshold, sim)
    decreases |seen|
  {
    if seen == [] then Distinct
    else if |seen[0]| != |v| then Failed
    else if sim(v, seen[0]) > threshold then Duplicate
    else
      assert forall k :: 1 <= k < |seen| ==> seen[k] == seen[1..][k - 1];
      Compare(v, seen[1..], threshold, sim)
  }

  /** The verdict on item `i`, given the vectors recorded before it: a failed
      embedding raises before the inner loop starts. */
  function Decide(embeddings: seq<Embedding>, threshold: real, sim: Similarity, seen: seq<Vector>, i: nat): (r: Verdict)
    requires i < |embeddings|
    ensures r == Distinct <==> embeddings[i].Embedded? && SimilarToNone(embeddings[i].vector, seen, threshold, sim)
  {
    match embeddings[i]
    case Embedded(v) => Compare(v, seen, threshold, sim)
    case EmbedFailed => Failed
  }

  /** The decision for item `i`, given the state left by the items before it. */
  function Step(items: seq<Item>, embeddings: seq<Embedding>, threshold: real, sim: Similarity,
                acc: Accepted, i: nat): (r: Accepted)
    requires i < |items| == |embeddings|
    requires Below(acc.kept, i)
  {
    match Decide(embeddings, threshold, sim, acc.vectors, i)
    case Distinct => Accepted(acc.kept + [i], acc.vectors + [embeddings[i].vector])
    case Duplicate => acc
    case Failed =>
      if HeadlineTaken(Pick(items, acc.kept), items[i].headline) then acc
      else Accepted(acc.kept + [i], acc.vectors)
  }

  /** The state after the first `n` items. The accepted positions are below
      `n`, and there are never more vectors than accepted items. */
  function Run(items: seq<Item>, embeddings: seq<Embedding>, threshold: real, sim: Similarity,
               n: nat): (r: Accepted)
    requires n <= |items| == |embeddings|
    ensures Below(r.kept, n)
    ensures |r.vectors| <= |r.kept|
  {
    if n == 0 then Accepted([], [])
    else Step(items, embeddings, threshold, sim, Run(items, embeddings, threshold, sim, n - 1), n - 1)
  }

  /** What `dedupe_headlines` returns. */
  function Dedupe(items: seq<Item>, embeddings: seq<Embedding>, threshold: real, sim: Similarity): seq<Item>
    requires |items| == |embeddings|
  {
    Pick(items, Run(items, embeddings, threshold, sim, |items|).kept)
  }

  /** `dedupe_headlines`: one embedder call per item, in order; the inner
      loop over the recorded vectors stops at the first one that is too
      similar, and a vector of another length makes the similarity raise,
      which leads to the same `except` branch as a failed embedding. Returns
      the accepted items and the number of embedder calls. */
  method DedupeHeadlines(items: seq<Item>, embeddings: seq<Embedding>, threshold: real, sim: Similarity)
    returns (uniqueItems: seq<Item>, embedCalls: nat)
    requires |embeddings| == |items|
    ensures uniqueItems == Dedupe(items, embeddings, threshold, sim)
    ensures embedCalls == |items|
  {
    embedCalls := 0;
    if |items| == 0 {
      return [], embedCalls;
    }

    uniqueItems := [];
    var seenEmbeddings: seq<Vector> := [];
    ghost var kept: seq<nat> := [];

    var i := 0;
    while i < |items|
      invariant 0 <= i <= |items|
      invariant embedCalls == i
      invariant Run(items, embeddings, threshold, sim, i) == Accepted(kept, seenEmbeddings)
      invariant uniqueItems == Pick(items, kept)
    {
      var item := items[i];
      var outcome := embeddings[embedCalls];
      embedCalls := embedCalls + 1;
      var failed := false;
      match outcome {
        case Embedded(currentVec) =>
          var verdict := CompareWithSeen(currentVec, seenEmbeddings, threshold, sim);
          if verdict == Distinct {
            uniqueItems := uniqueItems + [item];
            seenEmbeddings := seenEmbeddings + [currentVec];
            kept := kept + [i];
          }
          failed := verdict == Failed;
        case EmbedFailed =>
          failed := true;
      }
      if failed && !HeadlineTaken(uniqueItems, item.headline) {
        uniqueItems := uniqueItems + [item];
        kept := kept + [i];
      }
      assert Run(items, embeddings, threshold, sim, i + 1) == Accepted(kept, seenEmbeddings);
      i := i + 1;
    }
  }

  /** The inner loop of `dedupe_headlines`: `for seen_vec in
      seen_embeddings`, stopping at the first vector that is too similar,
      where a vector of another length makes `np.dot` raise `ValueError`. */
  method CompareWithSeen(currentVec: Vector, seenEmbeddings: seq<Vector>, threshold: real, sim: Similarity)
    returns (verdict: Verdict)
    ensures verdict == Compare(currentVec, seenEmbeddings, threshold, sim)
  {
    var j := 0;
    while j < |seenEmbeddings|
      invariant 0 <= j <= |seenEmbeddings|
      invariant Compare(currentVec, seenEmbeddings[j..], threshold, sim) == Compare(currentVec, seenEmbeddings, threshold, sim)
    {
      var seenVec := seenEmbeddings[j];
      assert seenEmbeddings[j..][0] == seenVec && seenEmbeddings[j..][1..] == seenEmbeddings[j + 1..];
      if |seenVec| != |currentVec| {
        return Failed;
      }
      if sim(currentVec, seenVec) > threshold {
        return Duplicate;
      }
      j := j + 1;
    }
    return Distinct;
  }

  /** The inner loop stops at the first recorded vector that is not apart
      from `v`: on one of another length the similarity raises, on one that
      is too similar the item is a duplicate. */
  lemma {:induction false} FirstClashDecides(v: Vector, seen: seq<Vector>, threshold: real, sim: Similarity, k: nat)
    requires k < |seen|
    requires SimilarToNone(v, seen[..k], threshold, sim)
    requires !Apart(v, seen[k], threshold, sim)
    ensures Compare(v, seen, threshold, sim) == if |seen[k]| != |v| then Failed else Duplicate
  {
    if k > 0 {
      assert seen[..k][0] == seen[0];
      var rest := seen[1..][..k - 1];
      forall m | 0 <= m < |rest|
        ensures Apart(v, rest[m], threshold, sim)
      {
        assert rest[m] == seen[..k][m + 1];
      }
      FirstClashDecides(v, seen[1..], threshold, sim, k - 1);
    }
  }

  // ---------------------------------------------------------------------
  // How the state grows

  /** Later items only append: the state after `m` items is a prefix of the
      state after `n >= m` items, and every position added later is `>= m`. */
  lemma {:induction false} RunPrefix(items: seq<Item>, embeddings: seq<Embedding>, threshold: real,
                                     sim: Similarity, m: nat, n: nat)
    requires m <= n <= |items| == |embeddings|
    ensures var early := Run(items, embeddings, threshold, sim, m);
            var late := Run(items, embeddings, threshold, sim, n);
            && |early.kept| <= |late.kept| && late.kept[..|early.kept|] == early.kept
            && |early.vectors| <= |late.vectors| && late.vectors[..|early.vectors|] == early.vectors
            && forall k :: |early.kept| <= k < |late.kept| ==> m <= late.kept[k]
  {
    if m < n {
      RunPrefix(items, embeddings, threshold, sim, m, n - 1);
      var mid := Run(items, embeddings, threshold, sim, n - 1);
      var late := Run(items, embeddings, threshold, sim, n);
      assert late.kept[..|mid.kept|] == mid.kept;
      assert late.vectors[..|mid.vectors|] == mid.vectors;
    }
  }

  /** One step either leaves the state alone or appends position `n - 1`,
      together with its vector when the verdict on it is `Distinct`. */
  lemma RunStep(items: seq<Item>, embeddings: seq<Embedding>, threshold: real, sim: Similarity, n: nat)
    requires 0 < n <= |items| == |embeddings|
    ensures var prev := Run(items, embeddings, threshold, sim, n - 1);
            var r := Run(items, embeddings, threshold, sim, n);
            var d := Decide(embeddings, threshold, sim, prev.vectors, n - 1);
            || r == prev
            || (&& r.kept == prev.kept + [n - 1]
                && r.vectors == prev.vectors + (if d == Distinct then [embeddings[n - 1].vector] else []))
  {
  }

  /** Whether item `i` enters the state, decided on the state before it:
      exactly when it is distinct from every recorded vector, or when its
      `try` block raised and no accepted item has its headline. */
  lemma StepKeeps(items: seq<Item>, embeddings: seq<Embedding>, threshold: real, sim: Similarity, i: nat)
    requires i < |items| == |embeddings|
    ensures i in Run(items, embeddings, threshold, sim, i + 1).kept <==>
              || Decide(embeddings, threshold, sim, Run(items, embeddings, threshold, sim, i).vectors, i) == Distinct
              || (&& Decide(embeddings, threshold, sim, Run(items, embeddings, threshold, sim, i).vectors, i) == Failed
                  && HeadlineNew(items, Run(items, embeddings, threshold, sim, i).kept, items[i].headline))
  {
    var before := Run(items, embeddings, threshold, sim, i);
    var after := Run(items, embeddings, threshold, sim, i + 1);
    assert after == Step(items, embeddings, threshold, sim, before, i);
    assert i !in before.kept;
    match Decide(embeddings, threshold, sim, before.vectors, i)
    case Distinct =>
      assert after.kept == before.kept + [i];
      assert after.kept[|before.kept|] == i;
    case Duplicate =>
      assert after == before;
    case Failed =>
      var picked := Pick(items, before.kept);
      var h := items[i].headline;
      assert HeadlineTaken(picked, h) <==> exists k :: 0 <= k < |before.kept| && items[before.kept[k]].headline == h by {
        if HeadlineTaken(picked, h) {
          var k :| 0 <= k < |picked| && picked[k].headline == h;
          assert items[before.kept[k]].headline == h;
        }
      }
      if HeadlineTaken(picked, h) {
        assert after == before;
      } else {
        assert after.kept == before.kept + [i];
        assert after.kept[|before.kept|] == i;
      }
  }

  /** The rule by which item `i` is kept, stated on the state left by the
      items before it: kept exactly when its vector is apart from every
      recorded vector (so a similarity equal to the threshold does not make a
      duplicate), or when its `try` block raised and no accepted item has the
      same headline. */
  lemma KeepDecision(items: seq<Item>, embeddings: seq<Embedding>, threshold: real, sim: Similarity, i: nat)
    requires i < |items| == |embeddings|
    ensures i in Run(items, embeddings, threshold, sim, |items|).kept <==>
              || Decide(embeddings, threshold, sim, Run(items, embeddings, threshold, sim, i).vectors, i) == Distinct
              || (&& Decide(embeddings, threshold, sim, Run(items, embeddings, threshold, sim, i).vectors, i) == Failed
                  && HeadlineNew(items, Run(items, embeddings, threshold, sim, i).kept, items[i].headline))
  {
    var after := Run(items, embeddings, threshold, sim, i + 1);
    var last := Run(items, embeddings, threshold, sim, |items|);
    RunPrefix(items, embeddings, threshold, sim, i + 1, |items|);
    StepKeeps(items, embeddings, threshold, sim, i);
    assert i in last.kept <==> i in after.kept by {
      if i in last.kept {
        var k :| 0 <= k < |last.kept| && last.kept[k] == i;
        assert k < |after.kept|;
        assert after.kept[k] == i;
      }
      if i in after.kept {
        var k :| 0 <= k < |after.kept| && after.kept[k] == i;
        assert last.kept[k] == i;
      }
    }
  }

  // ---------------------------------------------------------------------
  // Properties of the output

  /** The output is a subsequence of the input, in input order. */
  ghost predicate IsSubsequence(out: seq<Item>, items: seq<Item>) {
    exists kept: seq<nat> :: Increasing(kept, |items|) && |kept| == |out|
      && forall k :: 0 <= k < |kept| ==> out[k] == items[kept[k]]
  }

  lemma DedupeIsSubsequence(items: seq<Item>, embeddings: seq<Embedding>, threshold: real, sim: Similarity)
    requires |items| == |embeddings|
    ensures IsSubsequence(Dedupe(items, embeddings, threshold, sim), items)
    ensures |Dedupe(items, embeddings, threshold, sim)| <= |items|
  {
    var kept := Run(items, embeddings, threshold, sim, |items|).kept;
    RunIncreasing(items, embeddings, threshold, sim, |items|);
    IncreasingIsShort(kept, |items|);
  }

  /** The accepted positions are strictly increasing: each item is
      considered once, in input order. */
  lemma {:induction false} RunIncreasing(items: seq<Item>, embeddings: seq<Embedding>, threshold: real,
                                         sim: Similarity, n: nat)
    requires n <= |items| == |embeddings|
    ensures Increasing(Run(items, embeddings, threshold, sim, n).kept, n)
  {
    if n > 0 {
      RunIncreasing(items, embeddings, threshold, sim, n - 1);
      RunStep(items, embeddings, threshold, sim, n);
    }
  }

  /** Increasing positions below `n` are at most `n` many. */
  lemma {:induction false} IncreasingIsShort(kept: seq<nat>, n: nat)
    requires Increasing(kept, n)
    ensures |kept| <= n
  {
    if kept != [] {
      var init := kept[..|kept| - 1];
      IncreasingIsShort(init, kept[|kept| - 1]);
    }
  }

  /** The empty batch gives the empty result. */
  lemma DedupeEmpty(threshold: real, sim: Similarity)
    ensures Dedupe([], [], threshold, sim) == []
  {
  }

  /** The first item is always kept, whichever branch it takes. */
  lemma FirstAlwaysKept(items: seq<Item>, embeddings: seq<Embedding>, threshold: real, sim: Similarity)
    requires 0 < |items| == |embeddings|
    ensures var out := Dedupe(items, embeddings, threshold, sim);
            |out| > 0 && out[0] == items[0]
  {
    RunPrefix(items, embeddings, threshold, sim, 1, |items|);
    assert Run(items, embeddings, threshold, sim, 1).kept == [0];
  }

  /** Item `p` was accepted on semantic grounds: the verdict on it, against
      the vectors recorded before it, was `Distinct`. */
  ghost predicate Recorded(items: seq<Item>, embeddings: seq<Embedding>, threshold: real, sim: Similarity, p: nat)
    requires p < |items| == |embeddings|
  {
    Decide(embeddings, threshold, sim, Run(items, embeddings, threshold, sim, p).vectors, p) == Distinct
  }

  /** The vectors of the given positions that were accepted on semantic
      grounds, in order. */
  ghost function RecordedVectors(items: seq<Item>, embeddings: seq<Embedding>, threshold: real, sim: Similarity,
                                 kept: seq<nat>): seq<Vector>
    requires |items| == |embeddings| && Below(kept, |items|)
  {
    if kept == [] then []
    else
      var p := kept[|kept| - 1];
      RecordedVectors(items, embeddings, threshold, sim, kept[..|kept| - 1])
        + (if Recorded(items, embeddings, threshold, sim, p) then [embeddings[p].vector] else [])
  }

  /** The recorded vectors are exactly those of the items accepted on
      semantic grounds, in order: an item kept by exact matching records
      nothing, even when its embedding succeeded. */
  lemma {:induction false} VectorsOfSemanticAccepts(items: seq<Item>, embeddings: seq<Embedding>,
                                                    threshold: real, sim: Similarity, n: nat)
    requires n <= |items| == |embeddings|
    ensures var r := Run(items, embeddings, threshold, sim, n);
            r.vectors == RecordedVectors(items, embeddings, threshold, sim, r.kept)
  {
    if n > 0 {
      VectorsOfSemanticAccepts(items, embeddings, threshold, sim, n - 1);
      var prev := Run(items, embeddings, threshold, sim, n - 1);
      var r := Run(items, embeddings, threshold, sim, n);
      assert r == Step(items, embeddings, threshold, sim, prev, n - 1);
      match Decide(embeddings, threshold, sim, prev.vectors, n - 1)
      case Distinct =>
        assert Recorded(items, embeddings, threshold, sim, n - 1);
        RecordedVectorsSnoc(items, embeddings, threshold, sim, prev.kept, n - 1);
      case Duplicate =>
        assert r == prev;
      case Failed =>
        assert !Recorded(items, embeddings, threshold, sim, n - 1);
        if r != prev {
          RecordedVectorsSnoc(items, embeddings, threshold, sim, prev.kept, n - 1);
        }
    }
  }

  lemma RecordedVectorsSnoc(items: seq<Item>, embeddings: seq<Embedding>, threshold: real, sim: Similarity,
                            kept: seq<nat>, p: nat)
    requires p < |items| == |embeddings| && Below(kept, |items|)
    ensures RecordedVectors(items, embeddings, threshold, sim, kept + [p])
              == RecordedVectors(items, embeddings, threshold, sim, kept)
                 + (if Recorded(items, embeddings, threshold, sim, p) then [embeddings[p].vector] else [])
  {
    assert (kept + [p])[..|kept|] == kept;
  }

  /** No two recorded vectors are too similar: each one has the length of
      every earlier one, and its similarity to it is at most the threshold. */
  ghost predicate VectorsApart(vectors: seq<Vector>, threshold: real, sim: Similarity) {
    forall a, b :: 0 <= a < b < |vectors| ==> Apart(vectors[b], vectors[a], threshold, sim)
  }

  lemma {:induction false} RunVectorsApart(items: seq<Item>, embeddings: seq<Embedding>,
                                           threshold: real, sim: Similarity, n: nat)
    requires n <= |items| == |embeddings|
    ensures VectorsApart(Run(items, embeddings, threshold, sim, n).vectors, threshold, sim)
  {
    if n > 0 {
      RunVectorsApart(items, embeddings, threshold, sim, n - 1);
      RunStep(items, embeddings, threshold, sim, n);
    }
  }

  /** No two items accepted on semantic grounds are too similar: every
      recorded vector has the length of every earlier one, and the later
      one's similarity to the earlier one is at most the threshold. */
  lemma AcceptedPairsApart(items: seq<Item>, embeddings: seq<Embedding>, threshold: real, sim: Similarity)
    requires |items| == |embeddings|
    ensures VectorsApart(Run(items, embeddings, threshold, sim, |items|).vectors, threshold, sim)
  {
    RunVectorsApart(items, embeddings, threshold, sim, |items|);
  }

  // ---------------------------------------------------------------------
  // When every embedding fails

  /** The first item of each distinct headline, in input order. */
  function FirstOccurrences(items: seq<Item>): (r: seq<Item>)
    ensures |r| <= |items|
  {
    if items == [] then []
    else
      var init := items[..|items| - 1];
      var last := items[|items| - 1];
      if HeadlineTaken(init, last.headline) then FirstOccurrences(init)
      else FirstOccurrences(init) + [last]
  }

  ghost predicate AllFailed(embeddings: seq<Embedding>) {
    forall i :: 0 <= i < |embeddings| ==> embeddings[i] == EmbedFailed
  }

  /** Keeping first occurrences loses no headline and invents none. */
  lemma {:induction false} FirstOccurrencesHeadlines(s: seq<Item>, h: string)
    ensures HeadlineTaken(FirstOccurrences(s), h) <==> HeadlineTaken(s, h)
  {
    if s != [] {
      var init, last := s[..|s| - 1], s[|s| - 1];
      assert s == init + [last];
      FirstOccurrencesHeadlines(init, h);
      TakenAppend(init, last, h);
      if !HeadlineTaken(init, last.headline) {
        TakenAppend(FirstOccurrences(init), last, h);
      }
    }
  }

  /** The items at `kept + [i]` are those at `kept`, then item `i`. */
  lemma PickSnoc(items: seq<Item>, kept: seq<nat>, i: nat)
    requires forall k :: 0 <= k < |kept| ==> kept[k] < |items|
    requires i < |items|
    ensures Pick(items, kept + [i]) == Pick(items, kept) + [items[i]]
  {
  }

  /** `HeadlineNew` on positions is `HeadlineTaken` on the items there, negated. */
  lemma HeadlineNewIsNotTaken(items: seq<Item>, kept: seq<nat>, h: string)
    requires forall k :: 0 <= k < |kept| ==> kept[k] < |items|
    ensures HeadlineNew(items, kept, h) <==> !HeadlineTaken(Pick(items, kept), h)
  {
    var picked := Pick(items, kept);
    if HeadlineTaken(picked, h) {
      var k :| 0 <= k < |picked| && picked[k].headline == h;
      assert items[kept[k]].headline == h;
    }
  }

  lemma {:induction false} AllFailedRun(items: seq<Item>, embeddings: seq<Embedding>,
                                        threshold: real, sim: Similarity, n: nat)
    requires n <= |items| == |embeddings| && AllFailed(embeddings)
    ensures var r := Run(items, embeddings, threshold, sim, n);
            Pick(items, r.kept) == FirstOccurrences(items[..n]) && r.vectors == []
  {
    if n > 0 {
      AllFailedRun(items, embeddings, threshold, sim, n - 1);
      var prev := Run(items, embeddings, threshold, sim, n - 1);
      var r := Run(items, embeddings, threshold, sim, n);
      var init, x := items[..n - 1], items[n - 1];
      assert items[..n] == init + [x];
      assert items[..n][..n - 1] == init;
      RunStep(items, embeddings, threshold, sim, n);
      StepKeeps(items, embeddings, threshold, sim, n - 1);
      HeadlineNewIsNotTaken(items, prev.kept, x.headline);
      FirstOccurrencesHeadlines(init, x.headline);
      assert n - 1 !in prev.kept;
      if HeadlineTaken(init, x.headline) {
        assert r == prev;
      } else {
        assert r.kept == prev.kept + [n - 1];
        PickSnoc(items, prev.kept, n - 1);
      }
    }
  }

  lemma TakenAppend(s: seq<Item>, x: Item, h: string)
    ensures HeadlineTaken(s + [x], h) <==> HeadlineTaken(s, h) || x.headline == h
  {
    if HeadlineTaken(s, h) {
      var k :| 0 <= k < |s| && s[k].headline == h;
      assert (s + [x])[k] == s[k];
    }
    if x.headline == h {
      assert (s + [x])[|s|] == x;
    }
  }

  /** When every embedding fails, the result is the first occurrence of each
      distinct headline, and no vector is ever recorded. */
  lemma AllFailuresKeepFirstOccurrences(items: seq<Item>, embeddings: seq<Embedding>,
                                        threshold: real, sim: Similarity)
    requires |items| == |embeddings| && AllFailed(embeddings)
    ensures Dedupe(items, embeddings, threshold, sim) == FirstOccurrences(items)
    ensures Run(items, embeddings, threshold, sim, |items|).vectors == []
  {
    AllFailedRun(items, embeddings, threshold, sim, |items|);
    assert items[..|items|] == items;
  }

  // ---------------------------------------------------------------------
  // The call as written

  /** What `embed_text(item["headline"], provider="local")` gives: the
      embedder accepts only the text, so the unexpected `provider` keyword
      raises `TypeError` on every call, which the `except Exception` branch
      catches. */
  function EmbedAsCalled(items: seq<Item>): (r: seq<Embedding>)
    ensures |r| == |items| && AllFailed(r)
  {
    seq(|items|, _ => EmbedFailed)
  }

  /** As written, the deduplicator only drops exact repeats of a headline. */
  lemma DedupeAsWritten(items: seq<Item>, threshold: real, sim: Similarity)
    ensures Dedupe(items, EmbedAsCalled(items), threshold, sim) == FirstOccurrences(items)
  {
    AllFailuresKeepFirstOccurrences(items, EmbedAsCalled(items), threshold, sim);
  }

  /** Two headlines that differ in text but are near-duplicates in meaning,
      at the default threshold 0.85: as written both are kept; with working
      embeddings the second is dropped. */
  lemma AsWrittenMissesNearDuplicates(a: Item, b: Item, u: Vector, w: Vector, sim: Similarity)
    requires a.headline != b.headline && |w| == |u| && sim(w, u) > DefaultThreshold
    ensures Dedupe([a, b], EmbedAsCalled([a, b]), DefaultThreshold, sim) == [a, b]
    ensures Dedupe([a, b], [Embedded(u), Embedded(w)], DefaultThreshold, sim) == [a]
  {
    DedupeAsWritten([a, b], DefaultThreshold, sim);
    assert [a, b][..1] == [a];
    assert !HeadlineTaken([a], b.headline);
    assert FirstOccurrences([a]) == [a] by {
      assert [a][..0] == [];
    }
    TooSimilarDropped(a, b, u, w, DefaultThreshold, sim);
  }

  /** With working embeddings, a second item too similar to the first is
      dropped, whatever its headline. */
  lemma TooSimilarDropped(a: Item, b: Item, u: Vector, w: Vector, threshold: real, sim: Similarity)
    requires |w| == |u| && sim(w, u) > threshold
    ensures Dedupe([a, b], [Embedded(u), Embedded(w)], threshold, sim) == [a]
  {
    var embs := [Embedded(u), Embedded(w)];
    assert Run([a, b], embs, threshold, sim, 1) == Accepted([0], [u]);
    assert Decide(embs, threshold, sim, [u], 1) == Duplicate;
    assert Run([a, b], embs, threshold, sim, 2) == Accepted([0], [u]);
    assert Pick([a, b], [0]) == [a];
  }

  /** The threshold is strict: a similarity equal to it keeps both items. */
  lemma ThresholdIsStrict(a: Item, b: Item, u: Vector, w: Vector, threshold: real, sim: Similarity)
    requires |w| == |u| && sim(w, u) == threshold
    ensures Dedupe([a, b], [Embedded(u), Embedded(w)], threshold, sim) == [a, b]
  {
    var embs := [Embedded(u), Embedded(w)];
    assert Run([a, b], embs, threshold, sim, 1) == Accepted([0], [u]);
    assert SimilarToNone(w, [u], threshold, sim);
  }

  /** A vector of another length than a recorded one makes the similarity
      raise, so the item falls back to exact matching, whatever `sim` says:
      it is dropped when an accepted item has its headline and kept
      otherwise, and in both cases no vector is recorded for it. */
  lemma MismatchedLengthFallsBack(a: Item, b: Item, u: Vector, w: Vector, threshold: real, sim: Similarity)
    requires |w| != |u|
    ensures Run([a, b], [Embedded(u), Embedded(w)], threshold, sim, 2).vectors == [u]
    ensures Dedupe([a, b], [Embedded(u), Embedded(w)], threshold, sim)
              == if a.headline == b.headline then [a] else [a, b]
  {
    var embs := [Embedded(u), Embedded(w)];
    assert Run([a, b], embs, threshold, sim, 1) == Accepted([0], [u]);
    assert Decide(embs, threshold, sim, [u], 1) == Failed;
    assert Pick([a, b], [0]) == [a];
    if a.headline == b.headline {
      assert [a][0].headline == b.headline;
    } else {
      assert !HeadlineTaken([a], b.headline);
    }
  }

  // ---------------------------------------------------------------------
  // The retry decorator around dedupe_headlines

  /** The deduplicator as an operation for the retry wrapper: its `try`
      block catches every `Exception` the embedder or the similarity raises,
      so it never raises. */
  function AsOperation(out: seq<Item>): nat -> Retry.Outcome<seq<Item>, string> {
    (attempt: nat) => Retry.Ok(out)
  }

  /** Under `@async_retry()` the deduplicator runs once, with no sleep. */
  lemma RetryRunsDedupeOnce(items: seq<Item>, embeddings: seq<Embedding>, threshold: real, sim: Similarity)
    requires |items| == |embeddings|
    ensures var out := Dedupe(items, embeddings, threshold, sim);
            Retry.Expected(AsOperation(out), Retry.DefaultRetries, Retry.DefaultDelay)
              == Retry.RetryRun(Retry.Returned(out), [Retry.Call])
  {
    var out := Dedupe(items, embeddings, threshold, sim);
    Retry.FirstFinalIs(AsOperation(out), Retry.DefaultRetries, 0);
  }
}
