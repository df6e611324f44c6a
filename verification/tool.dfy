/** The MCP tool `search_docs` (`DocumentSearchTool.SearchDocs`): it turns the
    outcome of a search into the list of text items of the tool response. */
module Tool {

  import opened Wrappers
  import opened Search

  /** One content item of a tool response (`Content`). */
  datatype Content = Content(kind: string, text: string)

  /** The `Type` of every item the tool returns. */
  const TextKind: string := "text"

  /** The single item returned when the search keeps nothing. */
  const NoDocumentsMessage: string := "\U{26A0}\U{FE0F} No documents found for your query."

  /** Starts the item of each search result. */
  const ResultMarker: string := "\U{1F4C4} "

  /** Starts the single item returned when the search fails. */
  const ErrorPrefix: string := "\U{274C} Error occurred: "

  /** The text of the item for one result: marker, title, ": ", snippet. */
  function ResultText(r: SearchResult): (text: string)
    ensures ResultMarker <= text
    ensures text[|ResultMarker|..] == r.title + ": " + r.snippet
  {
    ResultMarker + r.title + ": " + r.snippet
  }

  /** One item per result, in order. */
  function ResultItems(results: seq<SearchResult>): (items: seq<Content>)
    ensures |items| == |results|
    ensures forall k :: 0 <= k < |results| ==> items[k] == Content(TextKind, ResultText(results[k]))
  {
    seq(|results|, k requires 0 <= k < |results| => Content(TextKind, ResultText(results[k])))
  }

  /** The response for a search outcome: the error item carrying the
      failure's message when the search failed, the no-documents item when it
      kept nothing, and otherwise one item per result, in order. Every item is
      of kind "text" and the response is never empty. */
  function SearchDocs(outcome: Result<seq<SearchResult>, string>): (response: seq<Content>)
    ensures |response| >= 1
    ensures forall k :: 0 <= k < |response| ==> response[k].kind == TextKind
    ensures outcome.Failure? ==> response == [Content(TextKind, ErrorPrefix + outcome.error)]
    ensures outcome.Success? && |outcome.value| == 0 ==> response == [Content(TextKind, NoDocumentsMessage)]
    ensures outcome.Success? && |outcome.value| > 0 ==> |response| == |outcome.value|
    ensures outcome.Success? && |outcome.value| > 0 ==>
              forall k :: 0 <= k < |response| ==> response[k] == Content(TextKind, ResultText(outcome.value[k]))
  {
    match outcome
    case Failure(message) => [Content(TextKind, ErrorPrefix + message)]
    case Success(results) =>
      if |results| == 0 then [Content(TextKind, NoDocumentsMessage)]
      else ResultItems(results)
  }

  /** The whole tool over a document store whose read may fail: the search of
      the stored documents, rendered. Since a search keeps at most one
      document, the response always holds exactly one item. */
  function SearchDocsTool(query: string, store: Result<seq<Document>, string>): (response: seq<Content>)
    ensures |response| == 1
    ensures store.Failure? ==> response == SearchDocs(Failure(store.error))
    ensures store.Success? ==> response == SearchDocs(Success(Search.Search(query, store.value)))
  {
    match store
    case Failure(message) => SearchDocs(Failure(message))
    case Success(docs) => SearchDocs(Success(Search.Search(query, docs)))
  }

  /** Splits a string at the first occurrence of `c`: the text before it and
      the text after it, or nothing when `c` does not occur. */
  function BreakAt(s: string, c: char): (r: Option<(string, string)>)
    ensures r.None? <==> c !in s
    ensures r.Some? ==> c !in r.value.0 && s == r.value.0 + [c] + r.value.1
    decreases |s|
  {
    if |s| == 0 then None
    else if s[0] == c then Some(([], s[1..]))
    else
      match BreakAt(s[1..], c)
      case None => None
      case Some(parts) => Some(([s[0]] + parts.0, parts.1))
  }

  /** Breaking `a + [c] + b` at `c` gives back `a` and `b` when `a` has no `c`. */
  lemma {:induction false} BreakAtJoin(a: string, c: char, b: string)
    requires c !in a
    ensures BreakAt(a + [c] + b, c) == Some((a, b))
    decreases |a|
  {
    if |a| > 0 {
      BreakAtJoin(a[1..], c, b);
      var s := a + [c] + b;
      assert s[0] == a[0] && s[0] != c;
      assert s[1..] == a[1..] + [c] + b;
      assert BreakAt(s, c) == Some(([a[0]] + a[1..], b));
      assert [a[0]] + a[1..] == a;
    } else {
      assert (a + [c] + b)[1..] == b;
    }
  }

  /** Reads a result back from its item text. */
  function DecodeResult(text: string): Option<SearchResult>
  {
    if !(ResultMarker <= text) then None
    else
      match BreakAt(text[|ResultMarker|..], ':')
      case None => None
      case Some(parts) =>
        if |parts.1| >= 1 && parts.1[0] == ' ' then Some(SearchResult(parts.0, parts.1[1..]))
        else None
  }

  /** Reads every item back as a result, failing if any item is not one. */
  function DecodeResults(items: seq<Content>): Option<seq<SearchResult>>
    decreases |items|
  {
    if |items| == 0 then Some([])
    else
      match (DecodeResult(items[0].text), DecodeResults(items[1..]))
      case (Some(r), Some(rs)) => Some([r] + rs)
      case _ => None
  }

  /** What a client can read back from a response: the outcome it renders, or
      nothing when the response is not one the tool produces. */
  function Interpret(response: seq<Content>): Option<Result<seq<SearchResult>, string>>
  {
    if |response| == 1 && response[0].text == NoDocumentsMessage then Some(Success([]))
    else if |response| == 1 && ErrorPrefix <= response[0].text then
      Some(Failure(response[0].text[|ErrorPrefix|..]))
    else
      match DecodeResults(response)
      case Some(results) => if |results| > 0 then Some(Success(results)) else None
      case None => None
  }

  /** A result whose title has no ':' is read back from its item. */
  lemma DecodeResultText(r: SearchResult)
    requires ':' !in r.title
    ensures DecodeResult(ResultText(r)) == Some(r)
  {
    var rest := ResultText(r)[|ResultMarker|..];
    assert rest == r.title + [':'] + (" " + r.snippet);
    BreakAtJoin(r.title, ':', " " + r.snippet);
  }

  lemma {:induction false} DecodeResultItems(results: seq<SearchResult>)
    requires forall k :: 0 <= k < |results| ==> ':' !in results[k].title
    ensures DecodeResults(ResultItems(results)) == Some(results)
    decreases |results|
  {
    if |results| > 0 {
      DecodeResultText(results[0]);
      assert ResultItems(results)[1..] == ResultItems(results[1..]);
      DecodeResultItems(results[1..]);
      assert [results[0]] + results[1..] == results;
    }
  }

  /** The three kinds of item are told apart by their first character. */
  lemma FirstCharacters(r: SearchResult, message: string)
    ensures ResultText(r)[0] == '\U{1F4C4}'
    ensures (ErrorPrefix + message)[0] == '\U{274C}'
    ensures NoDocumentsMessage[0] == '\U{26A0}'
  {
  }

  /** The response determines the outcome: reading a response back gives the
      outcome it was made from, provided no result title contains ':'. */
  lemma InterpretSearchDocs(outcome: Result<seq<SearchResult>, string>)
    requires outcome.Success? ==> forall k :: 0 <= k < |outcome.value| ==> ':' !in outcome.value[k].title
    ensures Interpret(SearchDocs(outcome)) == Some(outcome)
  {
    match outcome
    case Failure(message) =>
      FirstCharacters(SearchResult("", ""), message);
      assert (ErrorPrefix + message)[|ErrorPrefix|..] == message;
    case Success(results) =>
      if |results| > 0 {
        var response := SearchDocs(outcome);
        FirstCharacters(results[0], "");
        assert response[0].text[0] == '\U{1F4C4}';
        DecodeResultItems(results);
      }
  }

  /** Without the restriction on titles the rendering loses information: two
      different results can give the same item text. */
  lemma ResultTextAmbiguous()
    ensures SearchResult("a: b", "c") != SearchResult("a", "b: c")
    ensures ResultText(SearchResult("a: b", "c")) == ResultText(SearchResult("a", "b: c"))
  {
  }
}
