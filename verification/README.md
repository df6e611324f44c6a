# McpMiniRagBridge retrieval core in Dafny

A model of the retrieval pipeline behind the MCP tool `search_docs` of
McpMiniRagBridge, a small retrieval-augmented-generation server, with proofs
of its properties.

- **`DummyEmbedding`** is the keyword embedder.
  - It lower-cases the text.
  - It makes two first-match passes over an ordered keyword table:
    - by whole phrase;
    - by any space-separated part of a phrase.
  - It returns the vector of the first hit, or 64 zeros when neither pass hits.
- **`VectorSearch`** is the search.
  - It embeds the query and each document's content, in store order.
  - It scores each pair by cosine similarity, with a zero-magnitude guard.
  - It drops scores that are not strictly above 0.1.
  - It keeps a strict running maximum, so ties go to the earliest document.
  - It cuts the snippet at 150 characters plus `"..."`.
  - It returns a list of zero or one result.
- **`DocumentSearchTool.SearchDocs`** maps the search outcome to text items:
  - one "no documents" item;
  - one item per result;
  - or one error item.

Modules, one per component:

| file | module | models |
|---|---|---|
| `wrappers.dfy` | `Wrappers` | `Option` (the source's `null`) and `Result` (its exceptions) |
| `reals.dfy` | `Reals` | real multiplication as `Mul`, and the nonlinear facts the cosine proofs need |
| `text.dfy` | `Text` | `ToLowerInvariant` on ASCII, ordinal `string.Contains`, and `string.Split(char)` with its inverse `Join` |
| `similarity.dfy` | `Similarity` | vectors, dot products, the cosine and the `CosineSimilarity` loop |
| `embedding.dfy` | `Embedding` | `GenerateVector`, the keyword table and `GetEmbeddingAsync` |
| `search.dfy` | `Search` | `SearchAsync`: the threshold, the running maximum and the snippet |
| `tool.dfy` | `Tool` | `SearchDocs` and the text of its items |
| `scenario.dfy` | `Scenario` | the whole pipeline with the keyword embedder, and the three seeded documents |

The data types follow the source's records:
- `Search.Document(title, content)` is `RagDocument` (Data/AppDbContext.cs:11-16) without its key.
- `Search.SearchResult(title, snippet)` is `SearchResultDto` (Tools/DocumentSearchTool.cs:70-77).
- `Tool.Content(kind, text)` is the MCP `Content` item.
- `Embedding.Keyword(phrase, vector)` is one entry of the keyword dictionary.

## How scores are represented

Scores are real numbers, not `float`. The source computes
`dot / (sqrt(magA) * sqrt(magB))`. The model has no square root, so it keeps
each score as its signed square, `CosineKey = dot*|dot| / (magA*magB)`. The
threshold is kept the same way, as `0.1 * 0.1 = 0.01`.

The signed square is strictly increasing. So comparing keys is comparing
cosines, and the search keeps the same document either way.
`Search.SearchRanksByCosine` proves this for any list of real cosines. Such a
real cosine `c` is characterised without roots by `Similarity.IsCosine`:
`c^2 * magA * magB == dot^2`, with `c` of the sign of `dot`, and `c == 0`
under the guard.

## Model

| member | source | states |
|---|---|---|
| Embedding.GenerateVector | Services/EmbeddingService.cs:27-32 | the vector has 64 entries, starts with `a, b, c`, and repeats with period 3 |
| Embedding.GeneratedDot | Services/EmbeddingService.cs:27-32 | the dot product of two generated vectors is `22*a*a' + 21*b*b' + 21*c*c'`, since 64 positions split 22/21/21 by residue mod 3 |
| Embedding.ReferenceVectors | Services/EmbeddingService.cs:20-25 | the three keyword vectors are pairwise orthogonal and have squared magnitudes 22, 21 and 21 |
| Embedding.KeywordVectorsDiffer | Services/EmbeddingService.cs:22-24 | the three keyword vectors are different and none is the zero vector |
| Embedding.KeywordTable | Services/EmbeddingService.cs:20-25 | the table holds "ef core", "authentication" and "performance" in that order, three distinct phrases, each with its own keyword vector of 64 entries |
| Text.Contains | Services/EmbeddingService.cs:39 | ordinal `string.Contains`: the empty pattern is always contained, a longer pattern never is, and a pattern as long as the string is contained exactly when it equals it |
| Embedding.AnyPartIn | Services/EmbeddingService.cs:44 | `parts.Any(normalized.Contains)` is true exactly when some part occurs in the text |
| Embedding.KeywordParts | Services/EmbeddingService.cs:44 | the second pass tries `"ef"` and `"core"` for the first entry, and the whole phrase for the other two |
| Embedding.TableHits | Services/EmbeddingService.cs:37-46 | for each table entry, what each pass tests, stated as substring tests on the text |
| Embedding.FirstHit | Services/EmbeddingService.cs:37-46 | one pass's result is the first table entry it hits, or nothing exactly when no entry is hit |
| Embedding.Lookup | Services/EmbeddingService.cs:36-47 | a whole-phrase hit anywhere in the table wins over any part hit; each pass takes its first hit; there is no match exactly when neither pass hits |
| Embedding.EmbedWith | Services/EmbeddingService.cs:34-48 | the embedding is the vector of the first phrase hit, else of the first part hit, else 64 zeros; with 64-entry table vectors it always has 64 entries |
| Embedding.Embed | Services/EmbeddingService.cs:34-48 | every embedding has 64 entries, whether from the table or from the zero fallback |
| Embedding.EmbedIgnoresCase | Services/EmbeddingService.cs:36 | a text and its lower-cased form embed alike |
| Embedding.EmbedRange | Services/EmbeddingService.cs:20-48 | every embedding is one of the three keyword vectors or the zero vector |
| Embedding.EmbedEfCore | Services/EmbeddingService.cs:37-41 | a text holding "ef core" in any case embeds to the EF Core vector |
| Embedding.EmbedAuthentication | Services/EmbeddingService.cs:37-41 | "authentication" decides only when "ef core" is absent |
| Embedding.EmbedPerformance | Services/EmbeddingService.cs:37-41 | "performance" decides only when both earlier phrases are absent |
| Embedding.EmbedPart | Services/EmbeddingService.cs:42-46 | with no whole phrase, the part "ef" or "core" selects the EF Core vector |
| Embedding.EmbedNothing | Services/EmbeddingService.cs:47 | with no phrase and no part, the embedding is all zeros |
| Embedding.EmbeddingSimilarity | Services/EmbeddingService.cs:12-17 | between two embeddings the similarity is 1 for the same nonzero vector and 0 otherwise, as the class comment promises |
| Text.Lower | Services/EmbeddingService.cs:36 | lower-casing keeps the length and leaves no capital; each capital becomes its small letter (32 code points on), and every other character is kept |
| Text.LowerIdempotent | Services/EmbeddingService.cs:36 | lower-casing twice is lower-casing once |
| Text.Split | Services/EmbeddingService.cs:44 | `Split(' ')` yields at least one part, and no part contains the separator |
| Text.JoinSplit | Services/EmbeddingService.cs:44 | joining the parts of a split with the separator gives the string back |
| Text.SplitJoin | Services/EmbeddingService.cs:44 | splitting a join of separator-free parts gives the parts back |
| Similarity.CauchySchwarz | Services/VectorSearch.cs:59-70 | `dot^2 <= magA * magB`, so the cosine lies in [-1, 1] |
| Similarity.CosineKey | Services/VectorSearch.cs:57-71 | the score is 0 under the zero-magnitude guard, lies in [-1, 1], and is positive exactly when the dot product and both magnitudes are |
| Similarity.CosineKeyOfCosine | Services/VectorSearch.cs:67-70 | the key is the signed square of the real cosine of the same vectors |
| Similarity.CosineUnique | Services/VectorSearch.cs:70 | the real cosine of two vectors is unique |
| Similarity.SignedSquareOrder | Services/VectorSearch.cs:34-37 | comparing signed squares is comparing the reals, with both `<` and `<=` |
| Similarity.ZeroMagnitudeCosine | Services/VectorSearch.cs:67-68 | a vector of zero magnitude has cosine 0 with every vector, on either side |
| Similarity.SelfCosine | Services/VectorSearch.cs:59-70 | a nonzero vector has cosine exactly 1 with itself |
| Similarity.CosineSimilarity | Services/VectorSearch.cs:57-71 | the loop over `a.Length` computes the cosine of `a` with the first `a.Length` entries of `b`, as a key, and it agrees with every real cosine of those vectors |
| Search.ThresholdKeyValue | Services/VectorSearch.cs:11 | the threshold 0.1 has key 0.01, which is positive |
| Search.Snippet | Services/VectorSearch.cs:39-41 | content of at most 150 characters is kept whole; longer content keeps exactly its first 150 characters, followed by "..." |
| Search.SnippetProperties | Services/VectorSearch.cs:39-41 | a snippet has at most 153 characters, begins with as much of the content as fits, and is its own snippet |
| Search.ResultOf | Services/VectorSearch.cs:43-47 | the result copies the title unchanged and carries the snippet of the content |
| Search.Reduce | Services/VectorSearch.cs:24-51 | the loop keeps nothing exactly when no score is above the threshold; otherwise it keeps the strict best, with no score above it and every earlier score below it, and carries that score |
| Search.StrictBestUnique | Services/VectorSearch.cs:37-50 | at most one index is the strict best |
| Search.TieKeepsEarlier | Services/VectorSearch.cs:37 | of two equal scores above the threshold, the later document is never kept |
| Search.ReduceOnKeys | Services/VectorSearch.cs:34-37 | running the loop on keys with the threshold's key keeps the same document as running it on the cosines with 0.1 |
| Search.Step | Services/VectorSearch.cs:34-50 | the loop body changes the state exactly when the score is above the threshold and beats the best so far, then holds this document and its score; the best score never decreases |
| Search.ReducePrefix | Services/VectorSearch.cs:27-51 | the loop state after one more document is one step of the loop body further |
| Search.StepKept | Services/VectorSearch.cs:34-50 | the body replaces the kept result and score only when the score passes the threshold and beats the best so far |
| Search.Search | Services/VectorSearch.cs:19-54 | at most one result; none exactly when every score is at or below the threshold (so an empty store gives none); otherwise the result of the strict best document |
| Search.SearchRanksByCosine | Services/VectorSearch.cs:27-53 | given the real cosine of every document, the search keeps the document the loop keeps on those cosines with threshold 0.1 |
| Search.SearchAsync | Services/VectorSearch.cs:19-54 | the source's loop, one embedding and one similarity per document, returns the search's result list |
| Tool.ResultText | Tools/DocumentSearchTool.cs:45 | an item text is the marker "📄 " followed by the title, ": " and the snippet |
| Tool.ResultItems | Tools/DocumentSearchTool.cs:39-47 | one text item per result, in the same order |
| Tool.SearchDocs | Tools/DocumentSearchTool.cs:19-66 | the response is never empty and every item is "text"; a failure gives exactly the one item "❌ Error occurred: " + message; no results give exactly the no-documents item; otherwise item k is the text item of result k, one per result in order |
| Tool.SearchDocsTool | Tools/DocumentSearchTool.cs:13-66 | the tool over a store whose read may fail answers with exactly one item |
| Tool.DecodeResultItems | Tools/DocumentSearchTool.cs:39-47 | the items of results whose titles have no ':' read back as those results |
| Tool.FirstCharacters | Tools/DocumentSearchTool.cs:33-62 | the three kinds of item begin with three different characters |
| Tool.InterpretSearchDocs | Tools/DocumentSearchTool.cs:19-66 | a response determines the outcome it was made from, when no title contains ':' |
| Tool.ResultTextAmbiguous | Tools/DocumentSearchTool.cs:45 | without that restriction two different results can give the same item text |
| Scenario.DummyScores | Services/VectorSearch.cs:29-30 | with the keyword embedder every score is 1 (same keyword) or 0 |
| Scenario.DummySearchNone | Services/VectorSearch.cs:34-35 | a search finds nothing when no document shares the query's keyword |
| Scenario.DummySearchFirst | Services/VectorSearch.cs:37-53 | a search keeps exactly the first document that shares the query's keyword |
| Scenario.QueryEmbedding | Services/EmbeddingService.cs:36-41 | "What is EF Core?" embeds to the EF Core vector |
| Scenario.SeedEmbeddings | Program.cs:67-71 | the three seeded contents embed to the authentication, EF Core and performance vectors |
| Scenario.SeedCosines | Program.cs:67-71 | the real cosines of "What is EF Core?" with the three seeded documents are 0, 1 and 0 |
| Scenario.SeedCosineLoop | Services/VectorSearch.cs:24-51 | the loop over the cosines 0, 1 and 0 with threshold 0.1 keeps the second document |
| Scenario.SeedSearchByCosine | Services/VectorSearch.cs:27-53 | the seeded search, derived from the real cosines, keeps "EF Core Tips" |
| Scenario.SeedSearch | Program.cs:67-71 | searching the seeded store for "What is EF Core?" returns "EF Core Tips" with its whole content as snippet |
| Scenario.SeedToolResponse | Tools/DocumentSearchTool.cs:39-49 | the tool answers that query with the one item for "EF Core Tips" |
| Scenario.UnrelatedToolResponse | Tools/DocumentSearchTool.cs:24-37 | unrelated text embeds to zeros, finds nothing in the seeded store, and gets the no-documents item |
| Scenario.StoreFailureResponse | Tools/DocumentSearchTool.cs:51-65 | a failing store gives the one error item carrying the message |
| Scenario.PartInsideWord | Services/EmbeddingService.cs:42-46 | the part pass tests substrings, not words: "Run before deploy" embeds as EF Core through the "ef" in "before" |
| Scenario.PhraseBeatsEarlierPart | Services/EmbeddingService.cs:37-46 | "PerformanceCore" embeds as performance: a later whole phrase beats the part "core" of an earlier entry |
| Scenario.TieScenario | Services/VectorSearch.cs:37 | of two documents with equal top scores, the earlier one is returned |

## Left out

- Floating point. Scores, vectors and the threshold are reals. `0.1f`, float accumulation and `Math.Sqrt` rounding are not modelled. A score is kept as its signed square (see above), so no square root is needed.
- Similarity.CosineSimilarity: returns the key (the signed square of the cosine), not the cosine. `Search.SearchRanksByCosine` and `Similarity.CosineKeyOfCosine` connect the two.
- Similarity.CosineSimilarity: requires `|a| <= |b|`. The source reads `b[i]` for every index of `a`, and throws when `b` is shorter. Every embedding has 64 entries, so the search always meets this.
- `ToLowerInvariant` is modelled on ASCII letters only. Other characters are kept as they are.
- Search.Snippet: lengths and the 150-character cut count Unicode scalar values, not UTF-16 code units. A Dafny `char` is a scalar value, so a character outside the Basic Multilingual Plane, such as the 📄 marker, is one `char` in the model and two code units in C#. For content with such characters, `Content.Length > 150` and `Content[..150]` count differently in the source. The source's cut can also split a surrogate pair, which the model cannot express.
- The keyword `Dictionary` is enumerated in insertion order, which is what the model's table uses. .NET does not promise this order.
- `async`/`Task`, console logging, dependency injection, the MCP transport and tool discovery are plumbing and are left out.
- The Entity Framework store is replaced by a list of documents passed in, in store order. A read error is a `Failure` input.
- `RagDocument.Id` is left out. The search never reads it.
- The commented-out OpenAI embedder is not part of this model.
- Tool.SearchDocs: the `results == null` test on line 24 is dead, because `SearchAsync` never returns null. Line 22 would also dereference a null first.
- Tool.SearchDocs: the model's error branch covers failures of the search outcome. Exceptions inside the item rendering, which the same `catch` would also turn into an error item, cannot happen in the model.
- The `Content` and `CallToolResponse` library types are replaced by the model's own `Content(kind, text)` and a list of items.
