/** The behaviour of the whole pipeline with the keyword embedder: a general
    description of what a search keeps, and the seeded store with the
    queries the embedder was written for. */
module Scenario {

  import opened Wrappers
  import opened Reals
  import opened Text
  import opened Similarity
  import opened Embedding
  import opened Search
  import opened Tool

  /** The three documents the server seeds into an empty store, in order.
      The two longer contents are written in two pieces, split where the
      lemmas below reason about each piece separately. */
  const SeedCorpus: seq<Document> := [
    Document("Authentication Setup", "services.AddAuthentication(...)"),
    Document("EF Core Tips", "EF Core is a powerful ORM. " + "Use AsNoTracking for read-only queries."),
    Document("Performance Best Practices", "Performance: Cache responses " + "and avoid N+1 queries.")
  ]

  /** A document shares the query's keyword: both embed to the same nonzero
      vector. */
  predicate SameKeyword(query: string, doc: Document)
  {
    Embed(doc.content) == Embed(query) && Embed(query) != Zero(Dim)
  }

  /** With the keyword embedder every score is 1 (same keyword) or 0. */
  lemma DummyScores(query: string, docs: seq<Document>)
    ensures forall i :: 0 <= i < |docs| ==>
              Scores(query, docs)[i] == if SameKeyword(query, docs[i]) then 1.0 else 0.0
  {
    forall i | 0 <= i < |docs|
      ensures Scores(query, docs)[i] == if SameKeyword(query, docs[i]) then 1.0 else 0.0
    {
      EmbeddingSimilarity(query, docs[i].content);
    }
  }

  /** A search with the keyword embedder finds nothing when no document
      shares the query's keyword. */
  lemma DummySearchNone(query: string, docs: seq<Document>)
    requires forall j :: 0 <= j < |docs| ==> !SameKeyword(query, docs[j])
    ensures Search.Search(query, docs) == []
  {
    DummyScores(query, docs);
    ThresholdKeyValue();
  }

  /** A search with the keyword embedder keeps the first document that shares
      the query's keyword; later documents do not matter. */
  lemma DummySearchFirst(query: string, docs: seq<Document>, i: nat)
    requires i < |docs| && SameKeyword(query, docs[i])
    requires forall j :: 0 <= j < i ==> !SameKeyword(query, docs[j])
    ensures Search.Search(query, docs) == [ResultOf(docs[i])]
  {
    var scores := Scores(query, docs);
    DummyScores(query, docs);
    ThresholdKeyValue();
    assert IsStrictBest(scores, ThresholdKey, i);
    var results := Search.Search(query, docs);
    var k :| IsStrictBest(scores, ThresholdKey, k) && results[0] == ResultOf(docs[k]);
    StrictBestUnique(scores, ThresholdKey, i, k);
  }

  /** The query the embedder was written for holds the phrase "ef core". */
  lemma QueryText()
    ensures Contains(Lower("What is EF Core?"), "ef core")
  {
    assert Lower("What is EF Core?") == "what is " + "ef core" + "?";
    ContainsInside("what is ", "ef core", "?");
  }

  lemma QueryEmbedding()
    ensures Embed("What is EF Core?") == EfCoreVector
  {
    QueryText();
    EmbedEfCore("What is EF Core?");
  }

  lemma LowerAuthenticationDoc()
    ensures Lower("services.AddAuthentication(...)") == "services.add" + "authentication" + "(...)"
  {
  }

  /** The first seeded document has no 'f', so only "authentication" occurs. */
  lemma SeedText0()
    ensures !Contains(Lower(SeedCorpus[0].content), "ef core")
    ensures Contains(Lower(SeedCorpus[0].content), "authentication")
  {
    LowerAuthenticationDoc();
    assert 'f' !in "services.add" + "authentication" + "(...)";
    NotContainsMissingChar("services.add" + "authentication" + "(...)", "ef core", 'f');
    ContainsInside("services.add", "authentication", "(...)");
  }

  lemma LowerEfCorePiece()
    ensures Lower("EF Core is a powerful ORM. ") == "ef core" + " is a powerful orm. "
  {
  }

  lemma SeedText1()
    ensures Contains(Lower(SeedCorpus[1].content), "ef core")
  {
    var a, b := "EF Core is a powerful ORM. ", "Use AsNoTracking for read-only queries.";
    LowerEfCorePiece();
    ContainsInside("", "ef core", " is a powerful orm. ");
    assert "" + "ef core" + " is a powerful orm. " == Lower(a);
    ContainsConcat(Lower(a), Lower(b), "ef core");
    LowerConcat(a, b);
  }

  lemma LowerPerformancePiece()
    ensures Lower("Performance: Cache responses ") == "performance: cache responses "
  {
  }

  /** The lowered first piece of the third document, cut around 'p' and 'm',
      which do not occur in "ef core". */
  lemma PerformancePieceCut()
    ensures "performance: cache responses " == "" + ['p'] + ("erfor" + ['m'] + "ance: cache responses ")
  {
  }

  /** The same piece, cut around "performance". */
  lemma PerformancePieceStart()
    ensures "performance: cache responses " == "" + "performance" + ": cache responses "
  {
  }

  /** The lowered third document, cut around 'p' and 'm'. */
  lemma SeedText2Cut()
    ensures Lower(SeedCorpus[2].content)
         == "" + ['p'] + ("erfor" + ['m'] + ("ance: cache responses " + Lower("and avoid N+1 queries.")))
  {
    var a, b := "Performance: Cache responses ", "and avoid N+1 queries.";
    LowerConcat(a, b);
    LowerPerformancePiece();
    PerformancePieceCut();
  }

  /** A string cut as above, whose tail has no 'f', does not hold "ef core":
      'p' and 'm' are not in the phrase and "erfor" is too short for it. */
  lemma CutNoEfCore(tail: string)
    requires 'f' !in tail
    ensures !Contains("" + ['p'] + ("erfor" + ['m'] + tail), "ef core")
  {
    NotContainsMissingChar(tail, "ef core", 'f');
    NotContainsShort("erfor", "ef core");
    NotContainsAcross("erfor", 'm', tail, "ef core");
    NotContainsShort("", "ef core");
    NotContainsAcross("", 'p', "erfor" + ['m'] + tail, "ef core");
  }

  lemma SeedText2NoEfCore()
    ensures !Contains(Lower(SeedCorpus[2].content), "ef core")
  {
    var b := "and avoid N+1 queries.";
    SeedText2Cut();
    assert 'f' !in "ance: cache responses ";
    assert 'f' !in b && 'F' !in b;
    LowerKeepsAbsence(b, 'f');
    CutNoEfCore("ance: cache responses " + Lower(b));
  }

  lemma SeedText2Rest()
    ensures !Contains(Lower(SeedCorpus[2].content), "authentication")
    ensures Contains(Lower(SeedCorpus[2].content), "performance")
  {
    var a, b := "Performance: Cache responses ", "and avoid N+1 queries.";
    LowerConcat(a, b);
    LowerPerformancePiece();
    assert 't' !in "performance: cache responses ";
    assert 't' !in b && 'T' !in b;
    LowerKeepsAbsence(b, 't');
    NotContainsMissingChar(Lower(a + b), "authentication", 't');
    PerformancePieceStart();
    ContainsInside("", "performance", ": cache responses ");
    ContainsConcat(Lower(a), Lower(b), "performance");
  }

  /** The third seeded document has every character of "ef core" but not the
      phrase, and no 't'; "performance" occurs. */
  lemma SeedText2()
    ensures !Contains(Lower(SeedCorpus[2].content), "ef core")
    ensures !Contains(Lower(SeedCorpus[2].content), "authentication")
    ensures Contains(Lower(SeedCorpus[2].content), "performance")
  {
    SeedText2NoEfCore();
    SeedText2Rest();
  }

  /** Each seeded document embeds to the vector of its own keyword. */
  lemma SeedEmbeddings()
    ensures Embed(SeedCorpus[0].content) == AuthenticationVector
    ensures Embed(SeedCorpus[1].content) == EfCoreVector
    ensures Embed(SeedCorpus[2].content) == PerformanceVector
  {
    SeedText0();
    EmbedAuthentication(SeedCorpus[0].content);
    SeedText1();
    EmbedEfCore(SeedCorpus[1].content);
    SeedText2();
    EmbedPerformance(SeedCorpus[2].content);
  }

  /** Against the seeded store, the EF Core document is the first that
      shares the query's keyword. */
  lemma SeedKeywords()
    ensures !SameKeyword("What is EF Core?", SeedCorpus[0])
    ensures SameKeyword("What is EF Core?", SeedCorpus[1])
  {
    QueryEmbedding();
    SeedEmbeddings();
    KeywordVectorsDiffer();
  }

  /** The real cosines of "What is EF Core?" with the seeded documents are
      0, 1 and 0. */
  lemma SeedCosines()
    ensures IsCosine(0.0, Embed("What is EF Core?"), Embed(SeedCorpus[0].content))
    ensures IsCosine(1.0, Embed("What is EF Core?"), Embed(SeedCorpus[1].content))
    ensures IsCosine(0.0, Embed("What is EF Core?"), Embed(SeedCorpus[2].content))
  {
    QueryEmbedding();
    SeedEmbeddings();
    ReferenceVectors();
    SelfCosine(EfCoreVector);
    MulZero(0.0);
    MulZero(Mul(SumSq(EfCoreVector), SumSq(AuthenticationVector)));
    MulZero(Mul(SumSq(EfCoreVector), SumSq(PerformanceVector)));
  }

  /** The loop over the cosines 0, 1 and 0 with threshold 0.1 keeps the
      second document. */
  lemma SeedCosineLoop()
    ensures Reduce([0.0, 1.0, 0.0], Threshold).best == Some(1)
  {
    var cs := [0.0, 1.0, 0.0];
    assert cs[..2][..1] == [0.0];
    assert [0.0][..0] == [];
    assert cs[..2] == [0.0, 1.0];
    assert Reduce([0.0], Threshold) == Acc(None, 0.0);
    assert Reduce([0.0, 1.0], Threshold) == Acc(Some(1), 1.0);
  }

  /** The same search, ranked by the real cosines: the search keeps the
      document the loop over those cosines keeps. */
  lemma SeedSearchByCosine()
    ensures Search.Search("What is EF Core?", SeedCorpus) == [ResultOf(SeedCorpus[1])]
  {
    var q, cs := "What is EF Core?", [0.0, 1.0, 0.0];
    SeedCosines();
    assert forall i :: 0 <= i < |SeedCorpus| ==> IsCosine(cs[i], Embed(q), Embed(SeedCorpus[i].content)) by {
      forall i | 0 <= i < |SeedCorpus|
        ensures IsCosine(cs[i], Embed(q), Embed(SeedCorpus[i].content))
      {
        assert i == 0 || i == 1 || i == 2;
      }
    }
    SeedCosineLoop();
    SearchRanksByCosine(q, SeedCorpus, cs);
  }

  /** Searching the seeded store for "What is EF Core?" returns the EF Core
      document with its whole content as the snippet (66 characters). */
  lemma SeedSearch()
    ensures Search.Search("What is EF Core?", SeedCorpus)
         == [SearchResult("EF Core Tips", SeedCorpus[1].content)]
  {
    SeedKeywords();
    assert forall j :: 0 <= j < 1 ==> !SameKeyword("What is EF Core?", SeedCorpus[j]);
    DummySearchFirst("What is EF Core?", SeedCorpus, 1);
    assert |SeedCorpus[1].content| == 66;
  }

  /** The tool's answer to that query is the single item for that document. */
  lemma SeedToolResponse()
    ensures SearchDocsTool("What is EF Core?", Success(SeedCorpus))
         == [Content("text", "\U{1F4C4} " + "EF Core Tips" + ": " + SeedCorpus[1].content)]
  {
    SeedSearch();
  }

  /** A text without any keyword or keyword part embeds to the zero vector. */
  lemma UnrelatedText()
    ensures NoPhrase(Lower("hello world"))
    ensures !Contains(Lower("hello world"), "ef") && !Contains(Lower("hello world"), "core")
  {
    var n := Lower("hello world");
    assert n == "hello world";
    NotContainsMissingChar(n, "ef core", 'f');
    NotContainsMissingChar(n, "authentication", 'a');
    NotContainsMissingChar(n, "performance", 'a');
    NotContainsMissingChar(n, "ef", 'f');
    NotContainsMissingChar(n, "core", 'c');
  }

  /** Searching the seeded store for unrelated text finds nothing, and the
      tool answers with the no-documents item. */
  lemma UnrelatedToolResponse()
    ensures Embed("hello world") == Zero(Dim)
    ensures Search.Search("hello world", SeedCorpus) == []
    ensures SearchDocsTool("hello world", Success(SeedCorpus))
         == [Content("text", "\U{26A0}\U{FE0F} No documents found for your query.")]
  {
    UnrelatedText();
    EmbedNothing("hello world");
    DummySearchNone("hello world", SeedCorpus);
  }

  /** A failing store gives the error item carrying the failure's message. */
  lemma StoreFailureResponse(query: string, message: string)
    ensures SearchDocsTool(query, Failure(message)) == [Content("text", "\U{274C} Error occurred: " + message)]
  {
  }

  lemma PartInsideWordText()
    ensures NoPhrase(Lower("Run before deploy"))
    ensures Contains(Lower("Run before deploy"), "ef")
  {
    var n := Lower("Run before deploy");
    assert n == "run b" + "ef" + "ore deploy";
    NotContainsMissingChar(n, "ef core", 'c');
    NotContainsMissingChar(n, "authentication", 'a');
    NotContainsMissingChar(n, "performance", 'a');
    ContainsInside("run b", "ef", "ore deploy");
  }

  /** The part pass tests substrings, not words: "before" holds the part
      "ef" of "ef core", so the text embeds as if it were about EF Core. */
  lemma PartInsideWord()
    ensures Embed("Run before deploy") == EfCoreVector
  {
    PartInsideWordText();
    EmbedPart("Run before deploy");
  }

  lemma LowerPerformanceCore()
    ensures Lower("PerformanceCore") == "performance" + "core"
  {
  }

  lemma PerformanceCoreHolds()
    ensures Contains("performance" + "core", "core")
    ensures Contains("performance" + "core", "performance")
  {
    ContainsAt("core", "core", 0);
    ContainsAt("performance", "performance", 0);
    ContainsConcat("performance", "core", "core");
    ContainsConcat("performance", "core", "performance");
  }

  lemma PerformanceCoreLacks()
    ensures !Contains("performance" + "core", "ef core")
    ensures !Contains("performance" + "core", "authentication")
  {
    NotContainsMissingChar("performance" + "core", "ef core", ' ');
    NotContainsMissingChar("performance" + "core", "authentication", 'u');
  }

  lemma PhraseBeatsEarlierPartText()
    ensures Contains(Lower("PerformanceCore"), "core")
    ensures Contains(Lower("PerformanceCore"), "performance")
    ensures !Contains(Lower("PerformanceCore"), "ef core")
    ensures !Contains(Lower("PerformanceCore"), "authentication")
  {
    LowerPerformanceCore();
    PerformanceCoreHolds();
    PerformanceCoreLacks();
  }

  /** The whole-phrase pass runs over the entire table before the part pass:
      "performance" wins although the part "core" of the earlier "ef core"
      occurs too. */
  lemma PhraseBeatsEarlierPart()
    ensures Embed("PerformanceCore") == PerformanceVector
  {
    PhraseBeatsEarlierPartText();
    EmbedPerformance("PerformanceCore");
  }

  lemma EfCoreText()
    ensures Contains(Lower("ef core"), "ef core") && Contains(Lower("EF Core"), "ef core")
  {
    assert Lower("ef core") == "ef core";
    assert Lower("EF Core") == "ef core";
    ContainsAt("ef core", "ef core", 0);
  }

  lemma TieKeywords()
    ensures SameKeyword("ef core", Document("A", "EF Core"))
    ensures SameKeyword("ef core", Document("B", "EF Core"))
  {
    EfCoreText();
    EmbedEfCore("ef core");
    EmbedEfCore("EF Core");
    KeywordVectorsDiffer();
  }

  /** Two documents with equal scores: the earlier one is kept. */
  lemma TieScenario()
    ensures Search.Search("ef core", [Document("A", "EF Core"), Document("B", "EF Core")])
         == [SearchResult("A", "EF Core")]
  {
    TieKeywords();
    DummySearchFirst("ef core", [Document("A", "EF Core"), Document("B", "EF Core")], 0);
  }
}
