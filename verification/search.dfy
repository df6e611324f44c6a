/** The search pass (`VectorSearch.SearchAsync`): every document is scored
    against the query, scores at or below the threshold are dropped, and a
    strict running maximum keeps the earliest document with the highest
    score. The result list holds that one document or nothing. */
module Search {

  import opened Wrappers
  import opened Reals
  import opened Similarity
  import opened Embedding

  /** `SimilarityThreshold`: a score must be strictly above it. */
  const Threshold: real := 0.1

  /** The threshold in key space (scores are compared as signed squares). */
  const ThresholdKey: real := SignedSquare(Threshold)

  /** Content longer than this is cut to this many characters. */
  const SnippetLength: nat := 150

  /** Appended to a cut snippet. */
  const Ellipsis: string := "..."

  /** A stored document (`RagDocument`, without its database key). */
  datatype Document = Document(title: string, content: string)

  /** One hit of the search (`SearchResultDto`). */
  datatype SearchResult = SearchResult(title: string, snippet: string)

  /** The key of the threshold is 0.01, and it is positive. */
  lemma ThresholdKeyValue()
    ensures ThresholdKey == 0.01 && ThresholdKey > 0.0
  {
  }

  /** The preview of a document's content: short content is kept whole; longer
      content keeps its first 150 characters followed by "...". */
  function Snippet(content: string): (r: string)
    ensures |content| <= SnippetLength ==> r == content
    ensures |content| > SnippetLength ==> |r| == SnippetLength + |Ellipsis|
    ensures |content| > SnippetLength ==> r[..SnippetLength] == content[..SnippetLength]
    ensures |content| > SnippetLength ==> r[SnippetLength..] == Ellipsis
  {
    if |content| > SnippetLength then content[..SnippetLength] + Ellipsis else content
  }

  /** A snippet is never longer than 153 characters, always starts with as
      much of the content as it can hold, and taking the snippet of a snippet
      changes nothing. */
  lemma SnippetProperties(content: string)
    ensures |Snippet(content)| <= SnippetLength + |Ellipsis|
    ensures |content| <= SnippetLength ==> content <= Snippet(content)
    ensures |content| > SnippetLength ==> content[..SnippetLength] <= Snippet(content)
    ensures Snippet(Snippet(content)) == Snippet(content)
  {
    var r := Snippet(content);
    if |content| > SnippetLength {
      assert r[..SnippetLength] + r[SnippetLength..] == r;
    }
  }

  /** The search result a document yields. */
  function ResultOf(doc: Document): (r: SearchResult)
    ensures r.title == doc.title && r.snippet == Snippet(doc.content)
  {
    SearchResult(doc.title, Snippet(doc.content))
  }

  /** The state of the running maximum: the index of the best document so
      far (`bestResult`) and its score (`bestScore`, starting at 0). */
  datatype Acc = Acc(best: Option<nat>, bestScore: real)

  /** One iteration of the loop body for the document at index `i`: the
      state changes exactly when the score is above the threshold and beats
      the best so far, and then it holds this document and its score; so the
      best score never decreases. */
  function Step(acc: Acc, i: nat, score: real, t: real): (r: Acc)
    ensures r != acc <==> score > t && score > acc.bestScore
    ensures r != acc ==> r == Acc(Some(i), score)
    ensures r.bestScore >= acc.bestScore
  {
    if score <= t then acc
    else if score > acc.bestScore then Acc(Some(i), score)
    else acc
  }

  /** `i` is the index the running maximum must end on: its score is above
      the threshold, no score exceeds it, and every earlier score is strictly
      below it (ties go to the earliest document). */
  ghost predicate IsStrictBest(scores: seq<real>, t: real, i: int)
  {
    && 0 <= i < |scores|
    && scores[i] > t
    && (forall j :: 0 <= j < |scores| ==> scores[j] <= scores[i])
    && (forall j :: 0 <= j < i ==> scores[j] < scores[i])
  }

  /** The loop over all scores, in document order. For a threshold that is
      not negative: nothing is kept exactly when no score is above the
      threshold, and otherwise the kept index is the strict best. */
  function Reduce(scores: seq<real>, t: real): (acc: Acc)
    ensures acc.best.None? ==> acc.bestScore == 0.0
    ensures t >= 0.0 ==> (acc.best.None? <==> forall j :: 0 <= j < |scores| ==> scores[j] <= t)
    ensures t >= 0.0 && acc.best.Some? ==>
              IsStrictBest(scores, t, acc.best.value) && acc.bestScore == scores[acc.best.value]
    decreases |scores|
  {
    if |scores| == 0 then Acc(None, 0.0)
    else
      var n := |scores| - 1;
      var prefix := scores[..n];
      assert forall j :: 0 <= j < n ==> prefix[j] == scores[j];
      Step(Reduce(prefix, t), n, scores[n], t)
  }

  /** At most one index is the strict best. */
  lemma StrictBestUnique(scores: seq<real>, t: real, i: int, j: int)
    requires IsStrictBest(scores, t, i) && IsStrictBest(scores, t, j)
    ensures i == j
  {
  }

  /** Of two documents with equal scores above the threshold, the later one
      is never kept. */
  lemma TieKeepsEarlier(scores: seq<real>, t: real, i: int, j: int)
    requires t >= 0.0 && 0 <= i < j < |scores|
    requires scores[i] == scores[j] && scores[j] > t
    ensures Reduce(scores, t).best != Some(j)
  {
  }

  /** The keys of a list of scores. */
  function Keys(cs: seq<real>): (ks: seq<real>)
    ensures |ks| == |cs|
    ensures forall i :: 0 <= i < |cs| ==> ks[i] == SignedSquare(cs[i])
  {
    seq(|cs|, i requires 0 <= i < |cs| => SignedSquare(cs[i]))
  }

  /** Running the loop on keys with the threshold's key keeps the same
      document as running it on the real scores with the real threshold, and
      the kept score is the key of the real one. */
  lemma {:induction false} ReduceOnKeys(cs: seq<real>, t: real)
    ensures Reduce(Keys(cs), SignedSquare(t)).best == Reduce(cs, t).best
    ensures Reduce(Keys(cs), SignedSquare(t)).bestScore == SignedSquare(Reduce(cs, t).bestScore)
    decreases |cs|
  {
    if |cs| == 0 {
      SignedSquareSign(0.0);
    } else {
      var n := |cs| - 1;
      ReduceOnKeys(cs[..n], t);
      assert Keys(cs)[..n] == Keys(cs[..n]);
      var acc := Reduce(cs[..n], t);
      SignedSquareOrder(cs[n], t);
      SignedSquareOrder(acc.bestScore, cs[n]);
    }
  }

  /** The key of each document's similarity to the query. */
  function Scores(query: string, docs: seq<Document>): (ss: seq<real>)
    ensures |ss| == |docs|
    ensures forall i :: 0 <= i < |docs| ==> ss[i] == CosineKey(Embed(query), Embed(docs[i].content))
  {
    seq(|docs|, i requires 0 <= i < |docs| => CosineKey(Embed(query), Embed(docs[i].content)))
  }

  /** The result list of a search: empty when no score is above the
      threshold, otherwise exactly the strict best document's result. */
  function Search(query: string, docs: seq<Document>): (results: seq<SearchResult>)
    ensures |results| <= 1
    ensures |results| == 0 <==> forall i :: 0 <= i < |docs| ==> Scores(query, docs)[i] <= ThresholdKey
    ensures |results| == 1 ==>
              exists i :: IsStrictBest(Scores(query, docs), ThresholdKey, i) && results[0] == ResultOf(docs[i])
  {
    ThresholdKeyValue();
    match Reduce(Scores(query, docs), ThresholdKey).best
    case None => []
    case Some(i) => [ResultOf(docs[i])]
  }

  /** Ranking by keys is ranking by the real cosines: whenever `cs` holds the
      real cosine of the query with each document, the search keeps the
      document the loop keeps on `cs` with threshold 0.1. */
  lemma SearchRanksByCosine(query: string, docs: seq<Document>, cs: seq<real>)
    requires |cs| == |docs|
    requires forall i :: 0 <= i < |docs| ==> IsCosine(cs[i], Embed(query), Embed(docs[i].content))
    ensures Search(query, docs) == match Reduce(cs, Threshold).best
                                   case None => []
                                   case Some(i) => [ResultOf(docs[i])]
  {
    forall i | 0 <= i < |docs|
      ensures Scores(query, docs)[i] == Keys(cs)[i]
    {
      CosineKeyOfCosine(cs[i], Embed(query), Embed(docs[i].content));
    }
    assert Scores(query, docs) == Keys(cs);
    ReduceOnKeys(cs, Threshold);
  }

  /** What the loop holds after the documents before index `i`. */
  function Kept(docs: seq<Document>, acc: Acc): Option<SearchResult>
    requires acc.best.Some? ==> acc.best.value < |docs|
  {
    match acc.best
    case None => None
    case Some(k) => Some(ResultOf(docs[k]))
  }

  /** The loop state after one more document is one `Step` further. */
  lemma ReducePrefix(scores: seq<real>, t: real, i: nat)
    requires i < |scores|
    ensures Reduce(scores[..i + 1], t) == Step(Reduce(scores[..i], t), i, scores[i], t)
  {
    assert scores[..i + 1][..i] == scores[..i];
  }

  /** The loop body's update of `bestResult` and `bestScore` is the update
      `Step` makes to the running maximum. */
  lemma StepKept(docs: seq<Document>, acc: Acc, i: nat, score: real, t: real)
    requires i < |docs|
    requires acc.best.Some? ==> acc.best.value < i
    ensures Step(acc, i, score, t).best.Some? ==> Step(acc, i, score, t).best.value < i + 1
    ensures score > t && score > acc.bestScore ==>
              Kept(docs, Step(acc, i, score, t)) == Some(ResultOf(docs[i])) && Step(acc, i, score, t).bestScore == score
    ensures !(score > t && score > acc.bestScore) ==> Step(acc, i, score, t) == acc
  {
  }

  /** The source's loop over the documents, one embedding and one similarity
      per document. */
  method SearchAsync(query: string, docs: seq<Document>) returns (results: seq<SearchResult>)
    ensures results == Search(query, docs)
    ensures |results| <= 1
  {
    var queryVec := Embed(query);
    ghost var scores := Scores(query, docs);
    ghost var acc := Acc(None, 0.0);
    var bestResult: Option<SearchResult> := None;
    var bestScore := 0.0;
    var i := 0;
    while i < |docs|
      invariant 0 <= i <= |docs|
      invariant acc == Reduce(scores[..i], ThresholdKey)
      invariant acc.best.Some? ==> acc.best.value < i
      invariant bestScore == acc.bestScore
      invariant bestResult == Kept(docs, acc)
    {
      var contentVec := Embed(docs[i].content);
      var score := CosineSimilarity(queryVec, contentVec);
      assert contentVec[..|queryVec|] == contentVec;
      assert score == scores[i];
      ReducePrefix(scores, ThresholdKey, i);
      StepKept(docs, acc, i, score, ThresholdKey);
      acc := Step(acc, i, score, ThresholdKey);
      if score > ThresholdKey && score > bestScore {
        bestResult := Some(ResultOf(docs[i]));
        bestScore := score;
      }
      i := i + 1;
    }
    assert scores[..i] == scores;
    results := if bestResult.Some? then [bestResult.value] else [];
  }
}
