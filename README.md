# StudentRAG: a verified model of the toy retrieve-then-answer pipeline

This project models the `StudentRAG` class of `code/rag_demo.py` in Dafny. The class
keeps an append-only knowledge base of documents with a document counter. It answers
a question in two steps. First it runs a lexical search: it lower-cases the question,
splits it on whitespace, and counts how many of those words occur as substrings of each
document's lower-cased `title + " " + content`. It keeps the documents with at least one
match, scores each by `matches / len(query_words)`, sorts stably by descending score and
truncates. Then it builds an extractive answer: from each hit it takes the first
`". "`-separated sentence of the content that mentions a query word, joins those
fragments after a fixed prefix, and adds a sources line.

Layout, one module per component:

- `text.dfy` (`Text`): the Python `str` operations the class relies on, written out on
  `seq<char>`. These are `isspace`, `lower`, `in`, `split()`, `split(sep)`, `strip()`,
  `sep.join` and `endswith`. Lemmas characterise `in`, `split()`, `split(sep)` and
  `strip()`, and how `lower()` interacts with `strip()`. `sep.join` has no contract of its
  own: `SplitJoin` and `WordsOfJoin` pin it down as the inverse of the two splits.
  `isspace` and `endswith` are plain definitions.
- `search.dfy` (`Search`): documents and search results; the specification of which
  documents a query hits, how they are scored and in what order they come back; and the
  stable sort (`list.sort(key=..., reverse=True)`) as an insertion sort.
- `answer.dfy` (`Answer`): the specification of the extractive answer. It covers the
  fragment taken from each hit, the fragments and sources, and how the text is assembled.
- `student_rag.dfy` (`StudentRag`): the class `StudentRAG`. Its fields `knowledgeBase`
  and `documentCount` are updated in place by `AddDocument`. `SimpleSearch` and
  `GenerateAnswer` are loops proved against the specification functions. `AskQuestion`
  composes the two, as the source does.
- `wrappers.dfy` (`Wrappers`): an `Option` type.

The class invariant `Valid()` states three things. `documentCount == |knowledgeBase|`,
document `i` has id `i`, and its `wordCount` is the number of `split()` tokens of its content.

The relevance score is an exact `real`, `matchCount / |query words|`. Every hit of one
query shares the denominator, so ordering by score is ordering by match count
(`Search.PrecedesByMatchCount`). The sort is stable, so ties keep knowledge-base order,
which is increasing id order. `Search.Precedes` is therefore "higher score, or equal
score and smaller id". `Search.RankingUnique` proves that only one sequence holds
exactly the candidates in that order. Hence `SimpleSearch`'s postcondition fixes its
result completely.

## Model

| member | source | states |
|---|---|---|
| `StudentRag.StudentRAG.constructor` | code/rag_demo.py:25-35 | A new knowledge base is empty with counter 0, and the class invariant holds. |
| `StudentRag.StudentRAG.AddDocument` | code/rag_demo.py:37-54 | Returns the old counter as the new id. Appends exactly one record with that id, the given title, content and category, and word count `len(content.split())`. Increments the counter and leaves earlier records unchanged, so the invariant (counter = size, id = position) is kept. |
| `StudentRag.StudentRAG.SimpleSearch` | code/rag_demo.py:56-108 | Reads but does not change the knowledge base (no `modifies`). The result is the first `max_results` (Python slice semantics) of the unique ranking of the candidate hits of the lower-cased, whitespace-split query. |
| `StudentRag.StudentRAG.GenerateAnswer` | code/rag_demo.py:110-157 | The returned text equals `Answer.AnswerText`: the fixed "not found" message for no hits, the fixed "no specific answer" message when no hit has a relevant sentence, and otherwise the assembled answer. |
| `StudentRag.StudentRAG.AskQuestion` | code/rag_demo.py:159-207 | Searches with `max_results = 3`. Success holds iff some document matches. On failure the response is "No relevant documents found." with no sources and no search results. On success it holds 1 to 3 results satisfying the search contract, `sources` lists the titles of all of them, `answer` is the generated answer, and every title on the answer's sources line is among `sources`. |
| `Search.QueryWords` | code/rag_demo.py:65 | `query.lower().split()`: every query word is non-empty and free of whitespace (the same expression recurs at line 133). |
| `Search.DocText` | code/rag_demo.py:71 | The lower-cased `title + " " + content` searched for query words. Its meaning comes from `Text.Lower`. |
| `Search.MentionsAny` | code/rag_demo.py:138 | `any(word in text for word in qw)`. `Search.MatchedWordsNonEmpty` ties it to a non-empty match list. |
| `Search.MatchedWords` | code/rag_demo.py:73-79 | The matched-word list of the inner loop. It is never longer than the query word list. Its full meaning is in `MatchedWordsSubsequence`, `MatchedWordsCount` and `MatchedWordsNonEmpty`. |
| `Search.MatchedWordsStep` | code/rag_demo.py:76-79 | One more query word is appended to the matches iff it occurs in the text. |
| `Search.Score` | code/rag_demo.py:82 | With `n > 0` query words the score times `n` is the match count. With no query words the score is 0. |
| `Search.Candidates` | code/rag_demo.py:69-90 | The hit list before sorting. It is never longer than the knowledge base; `CandidatesSpec` says which documents hit. |
| `Search.CandidatesStep` | code/rag_demo.py:69-90 | One more document is appended as a hit, with its matched words, count and score, iff it has a match. |
| `Search.CandidatesFromKb` | code/rag_demo.py:69-90 | Every hit's document is in the knowledge base. |
| `Search.SortByRelevance` | code/rag_demo.py:92-93 | The stable sort by descending score: the output holds exactly the input's items (same multiset), ordered by score, then by insertion order (id). |
| `Search.InsertByScore` | code/rag_demo.py:93 | One insertion step of the stable sort: the item goes after every item scoring at least as high. The result stays ranked and gains exactly that item. |
| `Search.MatchedWordsSubsequence` | code/rag_demo.py:73-79 | The matched words are a subsequence of the query words, so there are at most as many. |
| `Search.MatchedWordsCount` | code/rag_demo.py:73-79 | A word is matched exactly as often as the query repeats it if it occurs in the text, and never otherwise. |
| `Search.MatchedWordsNonEmpty` | code/rag_demo.py:73-81 | There is a match iff some query word occurs in the text. |
| `Search.ScoreBounds` | code/rag_demo.py:82 | For `1 <= matches <= n` the score is the ratio `matches / n` and lies in (0, 1]. |
| `Search.ScoreOrder` | code/rag_demo.py:82-93 | With a shared denominator, one score is greater than (or equal to) another iff its match count is. |
| `Search.CandidatesSpec` | code/rag_demo.py:69-90 | Before sorting, every hit comes from the knowledge base and records its matched words, `match_count == len(matched_words)`, `1 <= match_count <= len(query_words)` and the score. A document yields a hit iff some query word occurs in its lower-cased title and content. |
| `Search.CandidatesIdsIncreasing` | code/rag_demo.py:69-90 | Hits are produced in knowledge-base order, so their ids increase when the documents' ids do. |
| `Search.CandidatesOfNoWords` | code/rag_demo.py:76-84 | A query with no words produces no hits. |
| `Search.BlankQueryNoCandidates` | code/rag_demo.py:65-90 | An empty or whitespace-only query produces no hits. |
| `Search.PrecedesByMatchCount` | code/rag_demo.py:82-93 | Among hits of one query, the score order is the order by match count, ties broken by id. |
| `Search.RankedFirst` | code/rag_demo.py:93 | Two rankings of the same hits start with the same hit. |
| `Search.RankedTail` | code/rag_demo.py:93 | Dropping the first hit of a ranking leaves a ranking of the remaining hits. |
| `Search.RankingUnique` | code/rag_demo.py:93 | Two sequences that hold the same hits and are both in ranked order are equal: the sort result is determined. |
| `Search.RankedPrefix` | code/rag_demo.py:108 | A prefix of a ranking is ranked, and every hit after it ranks below every hit in it. |
| `Search.RankedHitsDistinct` | code/rag_demo.py:69-93 | Ranked hits of one query never share a document. |
| `Search.SearchOutcomeSpec` | code/rag_demo.py:56-108 | A search returns `min(max_results, #hits)` results when `max_results >= 0`. They are in non-increasing score order with ties in insertion order, each is a well-scored hit, each document appears at most once, and every hit left out ranks below every hit returned. |
| `Search.NothingToFind` | code/rag_demo.py:65-108 | Searching an empty knowledge base, or with an empty or blank query, returns `[]`. |
| `Search.SliceTo` | code/rag_demo.py:108 | `results[:k]` is a prefix of length `min(k, n)` for `k >= 0`, or `max(0, n + k)` for negative `k`. |
| `Answer.RelevantSentences` | code/rag_demo.py:130-139 | The stripped sentences that mention a query word, in order. `RelevantSentencesEmpty` and `RelevantSentencesFirst` characterise it. |
| `Answer.Fragment` | code/rag_demo.py:140-143 | The first relevant sentence of a document's content, if any. `FragmentSpec`, `FragmentNoneSpec` and `FragmentIsExtract` characterise it. |
| `Answer.Contributions` | code/rag_demo.py:122-144 | The fragments and the titles of the hits that gave one. `ContributionsMatch` and `ContributorsExactly` characterise them. |
| `Answer.ComposeAnswer` | code/rag_demo.py:147-153 | The assembled answer text. `ComposeAnswerShape` states its layout. |
| `Answer.AnswerText` | code/rag_demo.py:110-157 | The text `generate_answer` returns. `StudentRAG.GenerateAnswer` is proved equal to it, and `AnswerTextCases` tells its three outcomes apart. |
| `Answer.Titles` | code/rag_demo.py:204 | The list of the retrieved documents' titles, in result order. |
| `Answer.RelevantSentencesEmpty` | code/rag_demo.py:135-141 | No sentence is kept iff no sentence mentions a query word. |
| `Answer.RelevantSentencesFirst` | code/rag_demo.py:135-143 | The first sentence kept is the stripped first sentence that mentions a query word. |
| `Answer.FirstMentionExists` | code/rag_demo.py:135-143 | If some sentence mentions a query word, a first such sentence exists. |
| `Answer.FragmentSpec` | code/rag_demo.py:127-144 | A hit contributes fragment `f` iff `f` is the stripped first `". "`-separated sentence of its content (not its title) that, lower-cased, contains a query word. |
| `Answer.FragmentNoneSpec` | code/rag_demo.py:127-144 | A hit contributes nothing iff none of its content's sentences mentions a query word. |
| `Answer.FragmentIsExtract` | code/rag_demo.py:127-143 | A fragment is text of the content, contains no `". "`, and still mentions a query word after stripping. |
| `Answer.PositionsSpec` | code/rag_demo.py:124-144 | The positions of the set flags are listed once each, increasing, and a position is listed iff its flag is set. |
| `Answer.ContributorsExactly` | code/rag_demo.py:124-144 | A hit is a contributor iff it has a relevant sentence. Contributors are listed once each, in ranked order. |
| `Answer.ContributorsStep` | code/rag_demo.py:124-144 | One more hit adds its position to the contributors iff it has a relevant sentence. |
| `Answer.ContributionsMatch` | code/rag_demo.py:122-144 | There are as many fragments and source titles as contributors. The `i`-th fragment is the fragment of the `i`-th contributor, and the `i`-th source is its title. |
| `Answer.ContributorsAreRetrieved` | code/rag_demo.py:144 | Every title on the sources line is the title of a retrieved hit. |
| `Answer.Punctuate` | code/rag_demo.py:149-150 | The result ends in `'.'`, extends its input by at most one character, and is the input itself when that already ends in `'.'`. |
| `Answer.ComposeAnswerShape` | code/rag_demo.py:147-153 | The answer begins with `"Based on my knowledge base: "` and the fragments joined by single spaces. It ends with `"\n\n📚 Sources: "` and the titles joined by `", "`, and the character before that sources line is `'.'`. |
| `Answer.AnswerTextCases` | code/rag_demo.py:115-116 | The "not found" message is returned exactly when there are no hits. The "no specific answer" message is returned exactly when there are hits but no fragment. Otherwise the answer starts with the fixed prefix. |
| `Text.IsSpace` | code/rag_demo.py:47 | The characters Python's `str.isspace()` accepts, which `split()` and `strip()` treat as whitespace (also lines 65 and 139). |
| `Text.Lower` | code/rag_demo.py:65 | `lower()` keeps the length and lower-cases character by character. With `LowerChar`, no ASCII capital remains and whitespace stays whitespace (also lines 71 and 136). |
| `Text.Contains` | code/rag_demo.py:77 | Python's `w in t` (also line 138). `ContainsIff` proves it means occurrence at some position. |
| `Text.JoinWith` | code/rag_demo.py:148 | `sep.join(parts)`. It has no contract of its own: `SplitJoin` shows it inverts `split(sep)`, and `WordsOfJoin` shows `split()` inverts it for single-space joins (also line 153). |
| `Text.EndsWith` | code/rag_demo.py:149 | `s.endswith(suffix)`: the last `len(suffix)` characters are `suffix`. `Answer.Punctuate` is stated with it. |
| `Text.ContainsAt` | code/rag_demo.py:77 | An occurrence of `w` at a position of `t` makes `w in t` hold. |
| `Text.ContainsPosition` | code/rag_demo.py:77 | If `w in t` holds, `w` occurs in `t` at some position. |
| `Text.ContainsIff` | code/rag_demo.py:77 | Python's `w in t` on strings holds iff `w` occurs in `t` at some position (both directions). |
| `Text.ContainsInSlice` | code/rag_demo.py:138 | An occurrence inside a slice of `t` is an occurrence in `t`. |
| `Text.ContainsTrans` | code/rag_demo.py:138 | A substring of a substring of `t` is a substring of `t`. |
| `Text.Words` | code/rag_demo.py:47 | `split()` returns tokens that are non-empty and whitespace-free. |
| `Text.WordsEmptyIff` | code/rag_demo.py:65 | `split()` returns no token iff the text is empty or all whitespace. |
| `Text.WordsAfterSpaces` | code/rag_demo.py:47 | Leading whitespace does not change what `split()` returns. |
| `Text.TokenLenOfWord` | code/rag_demo.py:47 | The first token of a word followed by whitespace is that word. |
| `Text.WordsOfWordThen` | code/rag_demo.py:47 | `split()` of a word followed by whitespace and more text is the word, then `split()` of the rest. |
| `Text.WordsOfJoin` | code/rag_demo.py:47 | Joining tokens with single spaces and splitting again gives the tokens back. |
| `Text.Split` | code/rag_demo.py:130 | `split(". ")` returns at least one piece, and the first piece is a prefix of the text. |
| `Text.JoinPrepend` | code/rag_demo.py:130 | A character put before the first piece comes first in the joined text. |
| `Text.SplitJoin` | code/rag_demo.py:130 | Joining the pieces of `split(sep)` with `sep` rebuilds the text. |
| `Text.SplitPiecesAvoidSep` | code/rag_demo.py:130 | No piece of `split(sep)` contains `sep`. |
| `Text.SplitPiecesOccur` | code/rag_demo.py:130 | Every piece of `split(sep)` occurs in the text. |
| `Text.TrimStart` | code/rag_demo.py:139 | Leading strip: the result is a suffix of the text, everything removed is whitespace, and the result does not start with whitespace. |
| `Text.TrimEnd` | code/rag_demo.py:139 | Trailing strip: the result is a prefix of the text, everything removed is whitespace, and the result does not end with whitespace. |
| `Text.Strip` | code/rag_demo.py:139 | `strip()` leaves no leading or trailing whitespace. |
| `Text.StripOccurs` | code/rag_demo.py:139 | What `strip()` keeps occurs in the text. |
| `Text.TrimStartKeepsWord` | code/rag_demo.py:138-139 | A whitespace-free token found in a text is still found after the leading strip. |
| `Text.ContainsBeforeLast` | code/rag_demo.py:138-139 | A whitespace-free token found in a text that ends in whitespace is found in the text without that last character. |
| `Text.TrimEndKeepsWord` | code/rag_demo.py:138-139 | A whitespace-free token found in a text is still found after the trailing strip. |
| `Text.StripKeepsWord` | code/rag_demo.py:138-139 | A whitespace-free token found in a text is still found after `strip()`. |
| `Text.LowerTrimStart` | code/rag_demo.py:136-139 | `lower()` commutes with the leading strip. |
| `Text.LowerTrimEnd` | code/rag_demo.py:136-139 | `lower()` commutes with the trailing strip. |
| `Text.LowerStrip` | code/rag_demo.py:136-139 | `lower()` and `strip()` commute. |
| `Text.TokenLen` | code/rag_demo.py:47 | The length of the maximal leading run of non-whitespace. |
| `Text.LowerChar` | code/rag_demo.py:65 | Lower-casing leaves no ASCII capital and maps whitespace to whitespace and nothing else to it. |

## Left out

- All console output (`print`), and `show_knowledge_base`, `create_student_knowledge_base` and `run_student_demo` (code/rag_demo.py:209-363). These are console I/O, fixed sample data and an interactive `input()` loop.
- The `added_at` timestamp of each record (code/rag_demo.py:46). It reads the wall clock, so the `Document` datatype has no such field.
- `Text.LowerChar`: `str.lower()` is modelled for ASCII letters only. Other characters with a Unicode lower-case mapping are left unchanged.
- `Search.Score`: `relevance_score` is a Python float. The model uses the exact ratio. For fewer than 2^53 query words, correctly rounded division maps distinct ratios `m/n` (same `n`) to distinct floats in the same order. Ordering and ties therefore agree.
- `Search.SortByRelevance` requires the ids of its input to increase. It stands for `results.sort(...)` only at its one call site, where the candidates come from a valid knowledge base in id order. Stability is stated through that id order.
- `StudentRag.StudentRAG.SimpleSearch` and `StudentRag.StudentRAG.AskQuestion` require the class invariant `Valid()`. The constructor establishes it and `AddDocument` keeps it; these are the only writers of the fields.
- The default argument `category="general"` of `add_document` is not modelled. Callers of `AddDocument` pass the category.
- The default argument `max_results: int = 3` of `simple_search` (code/rag_demo.py:56) is not modelled. Callers of `SimpleSearch` pass `maxResults`; `AskQuestion` passes 3, as line 171 does.
- The failure response of `ask_question` has no `search_results` key. `Response.searchResults` is `None` there.
- code/mini_semantic_search.py, code/credit_card_fraud_detection.py, code/credit_scoring.py, code/model_comparison.py, code/simple_spacy_demo.py, code/vector_generation_demo.py and code/doc_vs_vector_demo.py are not part of this model. They delegate to spaCy, gensim, scikit-learn and numpy (floating-point vectors, classifiers), or only print.
