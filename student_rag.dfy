/**
 * The `StudentRAG` object: an append-only knowledge base with a document
 * counter, and the retrieve-then-answer pipeline run over it.
 */
module StudentRag {
  import opened Text
  import opened Wrappers
  import opened Search
  import opened Answer

  const NoDocumentsMessage: string := "No relevant documents found."
  /** `ask_question` always retrieves at most this many documents. */
  const AskMaxResults: int := 3

  /**
   * The dictionary `ask_question` returns. On the failure path it has no
   * `search_results` entry, modelled as `None`.
   */
  datatype Response = Response(question: string, answer: string, sources: seq<string>, searchResults: Option<seq<SearchResult>>, success: bool)

  class StudentRAG {
    var knowledgeBase: seq<Document>
    var documentCount: nat

    /**
     * The counter is the number of stored documents, each document's id is
     * its position, and its word count is that of its content.
     */
    ghost predicate Valid()
      reads this
    {
      && documentCount == |knowledgeBase|
      && forall i :: 0 <= i < |knowledgeBase| ==>
           knowledgeBase[i].id == i && knowledgeBase[i].wordCount == |Words(knowledgeBase[i].content)|
    }

    constructor ()
      ensures Valid()
      ensures knowledgeBase == [] && documentCount == 0
    {
      knowledgeBase := [];
      documentCount := 0;
    }

    /** Store a new document under the next id and return that id. */
    method AddDocument(title: string, content: string, category: string) returns (docId: nat)
      requires Valid()
      modifies this
      ensures Valid()
      ensures docId == old(documentCount) == old(|knowledgeBase|)
      ensures documentCount == old(documentCount) + 1
      ensures knowledgeBase == old(knowledgeBase) + [Document(docId, title, content, category, |Words(content)|)]
    {
      docId := documentCount;
      var document := Document(docId, title, content, category, |Words(content)|);
      knowledgeBase := knowledgeBase + [document];
      documentCount := documentCount + 1;
    }

    /**
     * Score every document by the fraction of query words found in its
     * lower-cased title and content, keep those with a match, sort them by
     * descending score and return the first `maxResults`.
     */
    method SimpleSearch(query: string, maxResults: int) returns (results: seq<SearchResult>)
      requires Valid()
      ensures IsSearchOutcome(knowledgeBase, query, maxResults, results)
    {
      var queryWords := Words(Lower(query));
      assert queryWords == QueryWords(query);
      var found: seq<SearchResult> := [];
      var i := 0;
      while i < |knowledgeBase|
        invariant 0 <= i <= |knowledgeBase|
        invariant found == Candidates(knowledgeBase[..i], queryWords)
      {
        var doc := knowledgeBase[i];
        var docText := Lower(doc.title + " " + doc.content);
        assert docText == DocText(doc);
        var matches := 0;
        var matchedWords: seq<string> := [];
        var j := 0;
        while j < |queryWords|
          invariant 0 <= j <= |queryWords|
          invariant matchedWords == MatchedWords(queryWords[..j], docText)
          invariant matches == |matchedWords|
        {
          MatchedWordsStep(queryWords, j, docText);
          if Contains(queryWords[j], docText) {
            matches := matches + 1;
            matchedWords := matchedWords + [queryWords[j]];
          }
          j := j + 1;
        }
        assert queryWords[..j] == queryWords;
        var relevance := if |queryWords| > 0 then matches as real / |queryWords| as real else 0.0;
        assert relevance == Score(matches, |queryWords|);
        CandidatesStep(knowledgeBase, i, queryWords);
        if matches > 0 {
          found := found + [SearchResult(doc, relevance, matchedWords, matches)];
        }
        i := i + 1;
      }
      assert knowledgeBase[..i] == knowledgeBase;
      assert DocIdsIncreasing(knowledgeBase);
      CandidatesIdsIncreasing(knowledgeBase, queryWords);
      var ranked := SortByRelevance(found);
      results := SliceTo(ranked, maxResults);
      assert IsRankingOf(ranked, Candidates(knowledgeBase, QueryWords(query)));
    }

    /**
     * Take from each hit the first `". "`-separated sentence of its content
     * that mentions a query word, and assemble those into an answer that
     * names the hits they came from.
     */
    method GenerateAnswer(query: string, searchResults: seq<SearchResult>) returns (answer: string)
      ensures answer == AnswerText(query, searchResults)
    {
      if searchResults == [] {
        return NotFoundMessage;
      }
      var answerParts: seq<string> := [];
      var sourcesUsed: seq<string> := [];
      var i := 0;
      while i < |searchResults|
        invariant 0 <= i <= |searchResults|
        invariant (answerParts, sourcesUsed) == Contributions(searchResults[..i], QueryWords(query))
      {
        var doc := searchResults[i].document;
        var sentences := Split(doc.content, SentenceBreak);
        var relevantSentences: seq<string> := [];
        var queryWords := Words(Lower(query));
      assert queryWords == QueryWords(query);
        var j := 0;
        while j < |sentences|
          invariant 0 <= j <= |sentences|
          invariant relevantSentences == RelevantSentences(sentences[..j], queryWords)
        {
          assert sentences[..j + 1][..j] == sentences[..j];
          if MentionsAny(queryWords, Lower(sentences[j])) {
            relevantSentences := relevantSentences + [Strip(sentences[j])];
          }
          j := j + 1;
        }
        assert sentences[..j] == sentences;
        if relevantSentences != [] {
          answerParts := answerParts + [relevantSentences[0]];
          sourcesUsed := sourcesUsed + [doc.title];
        }
        assert searchResults[..i + 1][..i] == searchResults[..i];
        i := i + 1;
      }
      assert searchResults[..i] == searchResults;
      if answerParts != [] {
        answer := AnswerPrefix + JoinWith(answerParts, " ");
        if !EndsWith(answer, ".") {
          answer := answer + ".";
        }
        answer := answer + SourcesHeader + JoinWith(sourcesUsed, ", ");
      } else {
        answer := NoExtractMessage;
      }
    }

    /**
     * The pipeline: search for at most three documents; with none, report
     * failure; otherwise generate the answer and list every retrieved title.
     */
    method AskQuestion(question: string) returns (response: Response)
      requires Valid()
      ensures response.question == question
      ensures response.success <==> Candidates(knowledgeBase, QueryWords(question)) != []
      ensures !response.success ==> response == Response(question, NoDocumentsMessage, [], None, false)
      ensures response.success ==>
        && response.searchResults.Some?
        && var rs := response.searchResults.value;
        && IsSearchOutcome(knowledgeBase, question, AskMaxResults, rs)
        && 1 <= |rs| <= AskMaxResults
        && response.sources == Titles(rs)
        && response.answer == AnswerText(question, rs)
        && forall t :: t in Contributions(rs, QueryWords(question)).1 ==> t in response.sources
    {
      var searchResults := SimpleSearch(question, AskMaxResults);
      SearchOutcomeSpec(knowledgeBase, question, AskMaxResults, searchResults);
      if searchResults == [] {
        return Response(question, NoDocumentsMessage, [], None, false);
      }
      var answer := GenerateAnswer(question, searchResults);
      var sources := Titles(searchResults);
      ContributorsAreRetrieved(searchResults, QueryWords(question));
      response := Response(question, answer, sources, Some(searchResults), true);
    }
  }
}
