/**
 * The lexical retriever of `StudentRAG.simple_search`: which documents a
 * query hits, how each hit is scored, and the order the hits are returned in.
 */
module Search {
  import opened Text

  /** A knowledge-base record. The `added_at` timestamp is not modelled. */
  datatype Document = Document(id: nat, title: string, content: string, category: string, wordCount: nat)

  /** One hit: the document, its relevance, and the query words found in it. */
  datatype SearchResult = SearchResult(document: Document, relevanceScore: real, matchedWords: seq<string>, matchCount: nat)

  /** `query.lower().split()` */
  function QueryWords(query: string): (qw: seq<string>)
    ensures forall k :: 0 <= k < |qw| ==> IsWord(qw[k])
  {
    Words(Lower(query))
  }

  /** `(doc["title"] + " " + doc["content"]).lower()` */
  function DocText(d: Document): string {
    Lower(d.title + " " + d.content)
  }

  /** `any(word in text for word in qw)` */
  predicate MentionsAny(qw: seq<string>, text: string) {
    exists w :: w in qw && Contains(w, text)
  }

  /** The query words found in `text`, in query order, a repeated query word once per repetition. */
  function MatchedWords(qw: seq<string>, text: string): (m: seq<string>)
    ensures |m| <= |qw|
    decreases |qw|
  {
    if qw == [] then []
    else
      var m := MatchedWords(qw[..|qw| - 1], text);
      if Contains(qw[|qw| - 1], text) then m + [qw[|qw| - 1]] else m
  }

  /** `matches / len(query_words) if query_words else 0`, as an exact ratio. */
  function Score(matches: nat, total: nat): (r: real)
    ensures total > 0 ==> r * total as real == matches as real
    ensures total == 0 ==> r == 0.0
  {
    if total == 0 then 0.0 else matches as real / total as real
  }

  /** The hits of one query before sorting: every document with a match, in knowledge-base order. */
  function Candidates(kb: seq<Document>, qw: seq<string>): (cs: seq<SearchResult>)
    ensures |cs| <= |kb|
    decreases |kb|
  {
    if kb == [] then []
    else
      var rest := Candidates(kb[..|kb| - 1], qw);
      var d := kb[|kb| - 1];
      var m := MatchedWords(qw, DocText(d));
      if |m| > 0 then rest + [SearchResult(d, Score(|m|, |qw|), m, |m|)] else rest
  }

  /** What every hit of query words `qw` records about its document. */
  ghost predicate WellScored(r: SearchResult, qw: seq<string>) {
    && r.matchedWords == MatchedWords(qw, DocText(r.document))
    && r.matchCount == |r.matchedWords|
    && 1 <= r.matchCount <= |qw|
    && r.relevanceScore == Score(r.matchCount, |qw|)
    && 0.0 < r.relevanceScore <= 1.0
  }

  ghost predicate DocIdsIncreasing(kb: seq<Document>) {
    forall i, j :: 0 <= i < j < |kb| ==> kb[i].id < kb[j].id
  }

  ghost predicate ResultIdsIncreasing(rs: seq<SearchResult>) {
    forall i, j :: 0 <= i < j < |rs| ==> rs[i].document.id < rs[j].document.id
  }

  /** `a` is `b` with some items left out, in the same order. */
  ghost predicate IsSubsequence(a: seq<string>, b: seq<string>)
    decreases |b|
  {
    || a == []
    || (b != [] && a[|a| - 1] == b[|b| - 1] && IsSubsequence(a[..|a| - 1], b[..|b| - 1]))
    || (b != [] && IsSubsequence(a, b[..|b| - 1]))
  }

  // ------------------------------------------------------------ matching

  /** The matched words are some of the query words, in query order. */
  lemma {:induction false} MatchedWordsSubsequence(qw: seq<string>, text: string)
    ensures |MatchedWords(qw, text)| <= |qw|
    ensures IsSubsequence(MatchedWords(qw, text), qw)
    decreases |qw|
  {
    if qw != [] {
      var init, last := qw[..|qw| - 1], qw[|qw| - 1];
      MatchedWordsSubsequence(init, text);
      var m := MatchedWords(init, text);
      if Contains(last, text) {
        assert (m + [last])[..|m|] == m;
      }
    }
  }

  /** A word is matched as often as the query repeats it if it occurs in the text, and never otherwise. */
  lemma {:induction false} MatchedWordsCount(qw: seq<string>, text: string)
    ensures forall w :: multiset(MatchedWords(qw, text))[w] == if Contains(w, text) then multiset(qw)[w] else 0
    decreases |qw|
  {
    if qw != [] {
      var init, last := qw[..|qw| - 1], qw[|qw| - 1];
      MatchedWordsCount(init, text);
      assert qw == init + [last];
    }
  }

  /** There is a match iff some query word occurs in the text. */
  lemma {:induction false} MatchedWordsNonEmpty(qw: seq<string>, text: string)
    ensures |MatchedWords(qw, text)| > 0 <==> MentionsAny(qw, text)
    decreases |qw|
  {
    if qw != [] {
      var init, last := qw[..|qw| - 1], qw[|qw| - 1];
      MatchedWordsNonEmpty(init, text);
      assert qw == init + [last];
      assert MentionsAny(qw, text) <==> MentionsAny(init, text) || Contains(last, text);
    }
  }

  /** One more query word: it is matched, at the end, iff it occurs in the text. */
  lemma MatchedWordsStep(qw: seq<string>, j: int, text: string)
    requires 0 <= j < |qw|
    ensures MatchedWords(qw[..j + 1], text) ==
      if Contains(qw[j], text) then MatchedWords(qw[..j], text) + [qw[j]] else MatchedWords(qw[..j], text)
  {
    assert qw[..j + 1][..j] == qw[..j];
  }

  /** `Score` is the ratio the source computes, and it lies in (0, 1] for a hit. */
  lemma ScoreBounds(m: nat, n: nat)
    requires 1 <= m <= n
    ensures Score(m, n) * n as real == m as real
    ensures 0.0 < Score(m, n) <= 1.0
  {
  }

  /** For one query the denominator is shared, so comparing scores is comparing match counts. */
  lemma ScoreOrder(m1: nat, m2: nat, n: nat)
    requires n > 0
    ensures Score(m1, n) > Score(m2, n) <==> m1 > m2
    ensures Score(m1, n) == Score(m2, n) <==> m1 == m2
  {
    var x, y := Score(m1, n), Score(m2, n);
    assert x * n as real == m1 as real;
    assert y * n as real == m2 as real;
    assert (x - y) * n as real == (m1 - m2) as real;
  }

  lemma {:induction false} CandidatesOfNoWords(kb: seq<Document>)
    ensures Candidates(kb, []) == []
    decreases |kb|
  {
    if kb != [] {
      CandidatesOfNoWords(kb[..|kb| - 1]);
    }
  }

  /**
   * Every candidate comes from the knowledge base and is well scored, and a
   * document yields a candidate iff one of the query words occurs in its text.
   */
  lemma {:induction false} CandidatesSpec(kb: seq<Document>, qw: seq<string>)
    ensures forall r :: r in Candidates(kb, qw) ==> r.document in kb && WellScored(r, qw)
    ensures forall d :: d in kb ==> ((exists r :: r in Candidates(kb, qw) && r.document == d) <==> MentionsAny(qw, DocText(d)))
    decreases |kb|
  {
    if kb != [] {
      var init, d := kb[..|kb| - 1], kb[|kb| - 1];
      CandidatesSpec(init, qw);
      assert kb == init + [d];
      var m := MatchedWords(qw, DocText(d));
      MatchedWordsSubsequence(qw, DocText(d));
      MatchedWordsNonEmpty(qw, DocText(d));
      if |m| > 0 {
        ScoreBounds(|m|, |qw|);
      }
    }
  }

  /** One more document: it becomes the last hit iff some query word occurs in its text. */
  lemma CandidatesStep(kb: seq<Document>, i: int, qw: seq<string>)
    requires 0 <= i < |kb|
    ensures var m := MatchedWords(qw, DocText(kb[i]));
      Candidates(kb[..i + 1], qw) ==
        if |m| > 0 then Candidates(kb[..i], qw) + [SearchResult(kb[i], Score(|m|, |qw|), m, |m|)] else Candidates(kb[..i], qw)
  {
    assert kb[..i + 1][..i] == kb[..i];
  }

  /** Every candidate's document is in the knowledge base. */
  lemma {:induction false} CandidatesFromKb(kb: seq<Document>, qw: seq<string>)
    ensures forall r :: r in Candidates(kb, qw) ==> r.document in kb
    decreases |kb|
  {
    if kb != [] {
      var init := kb[..|kb| - 1];
      CandidatesFromKb(init, qw);
      assert forall d :: d in init ==> d in kb;
    }
  }

  /** Candidates keep the knowledge base's order, so their ids increase when the documents' ids do. */
  lemma {:induction false} CandidatesIdsIncreasing(kb: seq<Document>, qw: seq<string>)
    requires DocIdsIncreasing(kb)
    ensures ResultIdsIncreasing(Candidates(kb, qw))
    decreases |kb|
  {
    if kb != [] {
      var init, d := kb[..|kb| - 1], kb[|kb| - 1];
      CandidatesIdsIncreasing(init, qw);
      CandidatesFromKb(init, qw);
      var rest := Candidates(init, qw);
      assert forall r :: r in rest ==> r.document.id < d.id by {
        forall r | r in rest ensures r.document.id < d.id {
          var i :| 0 <= i < |init| && init[i] == r.document;
        }
      }
    }
  }

  /** An empty or all-whitespace query matches nothing. */
  lemma BlankQueryNoCandidates(kb: seq<Document>, query: string)
    requires AllSpace(query)
    ensures Candidates(kb, QueryWords(query)) == []
  {
    WordsEmptyIff(Lower(query));
    CandidatesOfNoWords(kb);
  }

  // ------------------------------------------------------------ ranking

  /**
   * The order of `results.sort(key=relevance_score, reverse=True)` on
   * candidates listed by increasing id: higher score first, and among equal
   * scores the earlier document first, since the sort is stable.
   */
  predicate Precedes(a: SearchResult, b: SearchResult) {
    a.relevanceScore > b.relevanceScore || (a.relevanceScore == b.relevanceScore && a.document.id < b.document.id)
  }

  ghost predicate Ranked(rs: seq<SearchResult>) {
    forall i, j :: 0 <= i < j < |rs| ==> Precedes(rs[i], rs[j])
  }

  /** `ranked` holds exactly the candidates, in ranked order. */
  ghost predicate IsRankingOf(ranked: seq<SearchResult>, cands: seq<SearchResult>) {
    multiset(ranked) == multiset(cands) && Ranked(ranked)
  }

  /** Among the hits of one query, ranking by score is ranking by match count. */
  lemma PrecedesByMatchCount(a: SearchResult, b: SearchResult, qw: seq<string>)
    requires WellScored(a, qw) && WellScored(b, qw)
    ensures Precedes(a, b) <==> a.matchCount > b.matchCount || (a.matchCount == b.matchCount && a.document.id < b.document.id)
  {
    ScoreOrder(a.matchCount, b.matchCount, |qw|);
  }

  /** Two rankings of the same candidates start with the same item. */
  lemma RankedFirst(a: seq<SearchResult>, b: seq<SearchResult>)
    requires a != [] && multiset(a) == multiset(b) && Ranked(a) && Ranked(b)
    ensures b != [] && a[0] == b[0]
  {
    assert a[0] in multiset(b);
    var j :| 0 <= j < |b| && b[j] == a[0];
    assert b[0] in multiset(a);
    var i :| 0 <= i < |a| && a[i] == b[0];
    var a0, b0 := a[0], b[0];
    assert j == 0 || Precedes(b0, a0);
    assert i == 0 || Precedes(a0, b0);
  }

  /** Dropping the first item of a ranking leaves a ranking of the other items. */
  lemma RankedTail(a: seq<SearchResult>)
    requires a != [] && Ranked(a)
    ensures Ranked(a[1..])
    ensures multiset(a[1..]) == multiset(a) - multiset{a[0]}
  {
    assert a == [a[0]] + a[1..];
  }

  /** There is only one ranking of a list of candidates: the sort is deterministic. */
  lemma {:induction false} RankingUnique(a: seq<SearchResult>, b: seq<SearchResult>)
    requires multiset(a) == multiset(b) && Ranked(a) && Ranked(b)
    ensures a == b
    decreases |a|
  {
    if a == [] {
      assert |b| == |multiset(b)| == 0;
    } else {
      RankedFirst(a, b);
      RankedTail(a);
      RankedTail(b);
      RankingUnique(a[1..], b[1..]);
      assert a == [a[0]] + a[1..];
      assert b == [b[0]] + b[1..];
    }
  }

  /** Python's `s[:k]`: the first `k` items, or all but the last `-k` when `k` is negative. */
  function SliceTo<T>(s: seq<T>, k: int): (r: seq<T>)
    ensures r <= s
    ensures k >= 0 ==> |r| == if k < |s| then k else |s|
    ensures k < 0 ==> |r| == if |s| + k > 0 then |s| + k else 0
  {
    if k >= 0 then (if k < |s| then s[..k] else s)
    else if |s| + k > 0 then s[..|s| + k]
    else []
  }

  /** `simple_search(query, k)` on knowledge base `kb` returns `results`. */
  ghost predicate IsSearchOutcome(kb: seq<Document>, query: string, k: int, results: seq<SearchResult>) {
    exists ranked :: IsRankingOf(ranked, Candidates(kb, QueryWords(query))) && results == SliceTo(ranked, k)
  }

  /** A prefix of a ranking is ranked, and everything after it ranks below it. */
  lemma RankedPrefix(ranked: seq<SearchResult>, results: seq<SearchResult>)
    requires Ranked(ranked) && results <= ranked
    ensures Ranked(results)
    ensures forall x, y :: x in results && y in ranked && y !in results ==> Precedes(x, y)
  {
    forall x, y | x in results && y in ranked && y !in results ensures Precedes(x, y) {
      var i :| 0 <= i < |results| && results[i] == x;
      var j :| 0 <= j < |ranked| && ranked[j] == y;
      assert ranked[i] == x;
      assert j >= |results|;
    }
  }

  /** Hits of one query never share a document, since the document fixes the score. */
  lemma RankedHitsDistinct(rs: seq<SearchResult>, qw: seq<string>)
    requires Ranked(rs)
    requires forall r :: r in rs ==> WellScored(r, qw)
    ensures forall i, j :: 0 <= i < j < |rs| ==> rs[i].document != rs[j].document
  {
    forall i, j | 0 <= i < j < |rs| ensures rs[i].document != rs[j].document {
      assert rs[i] in rs && rs[j] in rs;
      assert Precedes(rs[i], rs[j]);
    }
  }

  /**
   * What a search outcome promises: at most `k` results, in ranked order,
   * each a well-scored hit of the query, each document at most once, and
   * every hit left out ranked below every hit returned.
   */
  lemma SearchOutcomeSpec(kb: seq<Document>, query: string, k: int, results: seq<SearchResult>)
    requires IsSearchOutcome(kb, query, k, results)
    ensures var n := |Candidates(kb, QueryWords(query))|; k >= 0 ==> |results| == if k < n then k else n
    ensures Ranked(results)
    ensures forall r :: r in results ==> r.document in kb && WellScored(r, QueryWords(query))
    ensures forall i, j :: 0 <= i < j < |results| ==> results[i].document != results[j].document
    ensures forall x, y :: x in results && y in Candidates(kb, QueryWords(query)) && y !in results ==> Precedes(x, y)
  {
    var qw := QueryWords(query);
    var cands := Candidates(kb, qw);
    var ranked :| IsRankingOf(ranked, cands) && results == SliceTo(ranked, k);
    assert |ranked| == |multiset(ranked)| == |multiset(cands)| == |cands|;
    CandidatesSpec(kb, qw);
    RankedPrefix(ranked, results);
    forall r | r in ranked ensures r in cands {
      assert r in multiset(ranked);
    }
    forall y | y in cands ensures y in ranked {
      assert y in multiset(cands);
    }
    RankedHitsDistinct(results, qw);
  }

  /** An empty knowledge base, or a blank query, finds nothing. */
  lemma NothingToFind(kb: seq<Document>, query: string, k: int, results: seq<SearchResult>)
    requires kb == [] || AllSpace(query)
    requires IsSearchOutcome(kb, query, k, results)
    ensures results == []
  {
    if AllSpace(query) {
      BlankQueryNoCandidates(kb, query);
    }
    var ranked :| IsRankingOf(ranked, Candidates(kb, QueryWords(query))) && results == SliceTo(ranked, k);
    assert |ranked| == |multiset(ranked)| == 0;
  }

  // ------------------------------------------------------------ the sort

  lemma InsertRanked(s: seq<SearchResult>, k: int, x: SearchResult)
    requires Ranked(s) && 0 <= k <= |s|
    requires forall j :: 0 <= j < k ==> Precedes(s[j], x)
    requires forall j :: k <= j < |s| ==> Precedes(x, s[j])
    ensures Ranked(s[..k] + [x] + s[k..])
  {
    var t := s[..k] + [x] + s[k..];
    forall p, q | 0 <= p < q < |t| ensures Precedes(t[p], t[q]) {
      if q < k {
        assert t[p] == s[p] && t[q] == s[q];
      } else if q == k {
        assert t[p] == s[p];
      } else if p == k {
        assert t[q] == s[q - 1];
      } else if p < k {
        assert t[p] == s[p] && t[q] == s[q - 1];
      } else {
        assert t[p] == s[p - 1] && t[q] == s[q - 1];
      }
    }
  }

  /**
   * One step of the sort: put `x`, whose id exceeds every id in `sorted`,
   * after every result that scores at least as high.
   */
  method InsertByScore(sorted: seq<SearchResult>, x: SearchResult) returns (res: seq<SearchResult>)
    requires Ranked(sorted)
    requires forall y :: y in sorted ==> y.document.id < x.document.id
    ensures Ranked(res)
    ensures multiset(res) == multiset(sorted) + multiset{x}
  {
    var k := 0;
    while k < |sorted| && sorted[k].relevanceScore >= x.relevanceScore
      invariant 0 <= k <= |sorted|
      invariant forall j :: 0 <= j < k ==> sorted[j].relevanceScore >= x.relevanceScore
    {
      k := k + 1;
    }
    forall j | 0 <= j < k ensures Precedes(sorted[j], x) {
      assert sorted[j] in sorted;
    }
    forall j | k <= j < |sorted| ensures Precedes(x, sorted[j]) {
      assert j == k || Precedes(sorted[k], sorted[j]);
    }
    InsertRanked(sorted, k, x);
    assert sorted == sorted[..k] + sorted[k..];
    res := sorted[..k] + [x] + sorted[k..];
  }

  /**
   * `results.sort(key=lambda x: x["relevance_score"], reverse=True)`, a
   * stable sort by descending score, written as an insertion sort. The
   * candidates arrive in knowledge-base order, that is, by increasing id.
   */
  method SortByRelevance(rs: seq<SearchResult>) returns (sorted: seq<SearchResult>)
    requires ResultIdsIncreasing(rs)
    ensures IsRankingOf(sorted, rs)
  {
    sorted := [];
    var i := 0;
    while i < |rs|
      invariant 0 <= i <= |rs|
      invariant multiset(sorted) == multiset(rs[..i])
      invariant Ranked(sorted)
    {
      forall y | y in sorted ensures y.document.id < rs[i].document.id {
        assert y in multiset(rs[..i]);
        var p :| 0 <= p < i && rs[..i][p] == y;
        assert rs[p] == y;
      }
      sorted := InsertByScore(sorted, rs[i]);
      assert rs[..i + 1] == rs[..i] + [rs[i]];
      i := i + 1;
    }
    assert rs[..i] == rs;
  }
}
