/**
 * The extractive answer of `StudentRAG.generate_answer`: from each ranked
 * hit, the first sentence of its content that mentions a query word, and
 * the text assembled from those fragments and their titles.
 */
module Answer {
  import opened Text
  import opened Wrappers
  import opened Search

  // The long messages are written in pieces so that the verifier can see their first characters.
  const NotFoundMessage: string := "\U{274C} Sorry, I couldn't find any relevant " + "information in my knowledge base."
  const NoExtractMessage: string := "I found relevant documents but couldn't " + "extract a specific answer. Please try " + "rephrasing your question."
  const AnswerPrefix: string := "Based on my knowledge base: "
  const SourcesHeader: string := "\n\n\U{1F4DA} Sources: "
  /** The naive sentence boundary: a period followed by one space. */
  const SentenceBreak: string := ". "

  /** The stripped sentences that mention a query word (compared lower-cased), in order. */
  function RelevantSentences(sentences: seq<string>, qw: seq<string>): (rel: seq<string>)
    decreases |sentences|
  {
    if sentences == [] then []
    else
      var rel := RelevantSentences(sentences[..|sentences| - 1], qw);
      var s := sentences[|sentences| - 1];
      if MentionsAny(qw, Lower(s)) then rel + [Strip(s)] else rel
  }

  /** The fragment a document contributes: its first relevant sentence, if any. */
  function Fragment(content: string, qw: seq<string>): Option<string> {
    var rel := RelevantSentences(Split(content, SentenceBreak), qw);
    if rel == [] then None else Some(rel[0])
  }

  /** The fragments of the hits, and the titles of the hits that gave one, in ranked order. */
  function Contributions(results: seq<SearchResult>, qw: seq<string>): (c: (seq<string>, seq<string>))
    decreases |results|
  {
    if results == [] then ([], [])
    else
      var (parts, sources) := Contributions(results[..|results| - 1], qw);
      var d := results[|results| - 1].document;
      match Fragment(d.content, qw)
      case Some(f) => (parts + [f], sources + [d.title])
      case None => (parts, sources)
  }

  /** `if not answer.endswith('.'): answer += "."` */
  function Punctuate(t: string): (r: string)
    ensures EndsWith(r, ".")
    ensures t <= r && |r| <= |t| + 1
    ensures EndsWith(t, ".") ==> r == t
  {
    if EndsWith(t, ".") then t else t + "."
  }

  function ComposeAnswer(parts: seq<string>, sources: seq<string>): string {
    Punctuate(AnswerPrefix + JoinWith(parts, " ")) + SourcesHeader + JoinWith(sources, ", ")
  }

  /** The text `generate_answer(query, results)` returns. */
  function AnswerText(query: string, results: seq<SearchResult>): string {
    if results == [] then NotFoundMessage
    else
      var (parts, sources) := Contributions(results, QueryWords(query));
      if parts == [] then NoExtractMessage else ComposeAnswer(parts, sources)
  }

  // ------------------------------------------------------------ fragments

  /** Sentence `k` is the first one that mentions a query word. */
  ghost predicate FirstMentionAt(sentences: seq<string>, qw: seq<string>, k: int) {
    && 0 <= k < |sentences|
    && MentionsAny(qw, Lower(sentences[k]))
    && forall j :: 0 <= j < k ==> !MentionsAny(qw, Lower(sentences[j]))
  }

  /** No sentence is kept iff no sentence mentions a query word. */
  lemma {:induction false} RelevantSentencesEmpty(ss: seq<string>, qw: seq<string>)
    ensures RelevantSentences(ss, qw) == [] <==> forall k :: 0 <= k < |ss| ==> !MentionsAny(qw, Lower(ss[k]))
    decreases |ss|
  {
    if ss != [] {
      var init := ss[..|ss| - 1];
      RelevantSentencesEmpty(init, qw);
      assert forall k :: 0 <= k < |init| ==> init[k] == ss[k];
    }
  }

  /** The first sentence kept is the first one that mentions a query word. */
  lemma {:induction false} RelevantSentencesFirst(ss: seq<string>, qw: seq<string>, k: int)
    requires FirstMentionAt(ss, qw, k)
    ensures RelevantSentences(ss, qw) != [] && RelevantSentences(ss, qw)[0] == Strip(ss[k])
    decreases |ss|
  {
    var init := ss[..|ss| - 1];
    if k < |init| {
      assert FirstMentionAt(init, qw, k) by {
        assert forall j :: 0 <= j <= k ==> init[j] == ss[j];
      }
      RelevantSentencesFirst(init, qw, k);
    } else {
      RelevantSentencesEmpty(init, qw);
      assert forall j :: 0 <= j < |init| ==> init[j] == ss[j];
    }
  }

  /** If some sentence mentions a query word, a first such sentence exists. */
  lemma {:induction false} FirstMentionExists(ss: seq<string>, qw: seq<string>)
    requires exists k :: 0 <= k < |ss| && MentionsAny(qw, Lower(ss[k]))
    ensures exists k :: FirstMentionAt(ss, qw, k)
    decreases |ss|
  {
    var init := ss[..|ss| - 1];
    if exists k :: 0 <= k < |init| && MentionsAny(qw, Lower(init[k])) {
      FirstMentionExists(init, qw);
      var k :| FirstMentionAt(init, qw, k);
      assert FirstMentionAt(ss, qw, k);
    } else {
      assert FirstMentionAt(ss, qw, |ss| - 1) by {
        forall j | 0 <= j < |ss| - 1 ensures !MentionsAny(qw, Lower(ss[j])) {
          assert ss[j] == init[j];
        }
      }
    }
  }

  /**
   * A document contributes fragment `f` iff `f` is, stripped, the first of
   * its `". "`-separated sentences that mentions a query word.
   */
  lemma FragmentSpec(content: string, qw: seq<string>, f: string)
    ensures Fragment(content, qw) == Some(f) <==> exists k :: FirstMentionAt(Split(content, SentenceBreak), qw, k) && f == Strip(Split(content, SentenceBreak)[k])
  {
    var ss := Split(content, SentenceBreak);
    assert ss == Split(content, SentenceBreak);
    var rel := RelevantSentences(ss, qw);
    assert Fragment(content, qw) == if rel == [] then None else Some(rel[0]);
    if rel != [] && rel[0] == f {
      RelevantSentencesEmpty(ss, qw);
      FirstMentionExists(ss, qw);
      var k :| FirstMentionAt(ss, qw, k);
      RelevantSentencesFirst(ss, qw, k);
    }
    if exists k :: FirstMentionAt(ss, qw, k) && f == Strip(ss[k]) {
      var k :| FirstMentionAt(ss, qw, k) && f == Strip(ss[k]);
      RelevantSentencesFirst(ss, qw, k);
    }
  }

  /** A document contributes nothing iff none of its sentences mentions a query word. */
  lemma FragmentNoneSpec(content: string, qw: seq<string>)
    ensures Fragment(content, qw) == None <==> forall k :: 0 <= k < |Split(content, SentenceBreak)| ==> !MentionsAny(qw, Lower(Split(content, SentenceBreak)[k]))
  {
    var ss := Split(content, SentenceBreak);
    assert Fragment(content, qw) == None <==> RelevantSentences(ss, qw) == [];
    RelevantSentencesEmpty(ss, qw);
    assert RelevantSentences(ss, qw) == [] <==> forall k :: 0 <= k < |ss| ==> !MentionsAny(qw, Lower(ss[k]));
    assert ss == Split(content, SentenceBreak);
  }

  /**
   * A fragment is extracted text: it occurs in the content, holds no
   * sentence break, and (for query words as `split()` makes them) still
   * mentions a query word after stripping.
   */
  lemma FragmentIsExtract(content: string, qw: seq<string>, f: string)
    requires forall w :: w in qw ==> IsWord(w)
    requires Fragment(content, qw) == Some(f)
    ensures Contains(f, content)
    ensures !Contains(SentenceBreak, f)
    ensures MentionsAny(qw, Lower(f))
  {
    var ss := Split(content, SentenceBreak);
    FragmentSpec(content, qw, f);
    var k :| FirstMentionAt(ss, qw, k) && f == Strip(ss[k]);
    StripOccurs(ss[k]);
    SplitPiecesOccur(content, SentenceBreak);
    ContainsTrans(f, ss[k], content);
    SplitPiecesAvoidSep(content, SentenceBreak);
    if Contains(SentenceBreak, f) {
      ContainsTrans(SentenceBreak, f, ss[k]);
    }
    var w :| w in qw && Contains(w, Lower(ss[k]));
    StripKeepsWord(w, Lower(ss[k]));
    LowerStrip(ss[k]);
  }

  // ------------------------------------------------------------ contributions

  /** The positions holding `true`, in increasing order. */
  ghost function Positions(flags: seq<bool>): seq<int>
    decreases |flags|
  {
    if flags == [] then []
    else
      var idx := Positions(flags[..|flags| - 1]);
      if flags[|flags| - 1] then idx + [|flags| - 1] else idx
  }

  /** `Positions` lists each set flag once, in order, and nothing else. */
  lemma {:induction false} PositionsSpec(flags: seq<bool>)
    ensures var idx := Positions(flags);
      && |idx| <= |flags|
      && (forall i :: 0 <= i < |idx| ==> 0 <= idx[i] < |flags|)
      && (forall i, j :: 0 <= i < j < |idx| ==> idx[i] < idx[j])
      && (forall k :: 0 <= k < |flags| ==> (k in idx <==> flags[k]))
    decreases |flags|
  {
    if flags != [] {
      var n := |flags| - 1;
      PositionsSpec(flags[..n]);
      var idx := Positions(flags[..n]);
      assert n !in idx;
      forall k | 0 <= k < n ensures k in Positions(flags) <==> flags[k] {
        assert flags[..n][k] == flags[k];
      }
    }
  }

  /** Which hits have a fragment. */
  ghost function HasFragment(results: seq<SearchResult>, qw: seq<string>): seq<bool> {
    seq(|results|, k requires 0 <= k < |results| => Fragment(results[k].document.content, qw).Some?)
  }

  /** The positions, among the hits, of the hits that contribute a fragment. */
  ghost function Contributors(results: seq<SearchResult>, qw: seq<string>): seq<int> {
    Positions(HasFragment(results, qw))
  }

  /** A hit is a contributor iff it has a fragment; contributors are listed once each, in ranked order. */
  lemma ContributorsExactly(results: seq<SearchResult>, qw: seq<string>)
    ensures var idx := Contributors(results, qw);
      && |idx| <= |results|
      && (forall i :: 0 <= i < |idx| ==> 0 <= idx[i] < |results|)
      && (forall i, j :: 0 <= i < j < |idx| ==> idx[i] < idx[j])
      && (forall k :: 0 <= k < |results| ==> (k in idx <==> Fragment(results[k].document.content, qw).Some?))
  {
    var flags := HasFragment(results, qw);
    PositionsSpec(flags);
    assert forall k :: 0 <= k < |results| ==> flags[k] == Fragment(results[k].document.content, qw).Some?;
  }

  /** Adding a hit at the end adds its position iff it has a fragment. */
  lemma ContributorsStep(results: seq<SearchResult>, qw: seq<string>)
    requires results != []
    ensures var n := |results| - 1;
      Contributors(results, qw) == if Fragment(results[n].document.content, qw).Some? then Contributors(results[..n], qw) + [n] else Contributors(results[..n], qw)
  {
    var n := |results| - 1;
    assert HasFragment(results, qw)[..n] == HasFragment(results[..n], qw);
  }

  /** The `i`-th fragment and the `i`-th source come from the `i`-th contributor. */
  lemma {:induction false} ContributionsMatch(results: seq<SearchResult>, qw: seq<string>)
    ensures var idx := Contributors(results, qw);
      var (parts, sources) := Contributions(results, qw);
      |idx| == |parts| == |sources| &&
      forall i :: 0 <= i < |idx| ==>
        && 0 <= idx[i] < |results|
        && Fragment(results[idx[i]].document.content, qw) == Some(parts[i])
        && sources[i] == results[idx[i]].document.title
    decreases |results|
  {
    if results != [] {
      var n := |results| - 1;
      var init := results[..n];
      ContributionsMatch(init, qw);
      ContributorsStep(results, qw);
      var idx0 := Contributors(init, qw);
      var (p0, s0) := Contributions(init, qw);
      var d := results[n].document;
      match Fragment(d.content, qw)
      case None =>
        assert Contributions(results, qw) == (p0, s0);
        forall i | 0 <= i < |idx0|
          ensures Fragment(results[idx0[i]].document.content, qw) == Some(p0[i])
        {
          assert init[idx0[i]] == results[idx0[i]];
        }
      case Some(f) =>
        var idx, parts, sources := idx0 + [n], p0 + [f], s0 + [d.title];
        assert Contributions(results, qw) == (parts, sources);
        forall i | 0 <= i < |idx|
          ensures 0 <= idx[i] < |results|
          ensures Fragment(results[idx[i]].document.content, qw) == Some(parts[i])
          ensures sources[i] == results[idx[i]].document.title
        {
          if i < |idx0| {
            assert idx[i] == idx0[i] && parts[i] == p0[i] && sources[i] == s0[i];
            assert init[idx0[i]] == results[idx0[i]];
          } else {
            assert idx[i] == n && parts[i] == f && sources[i] == d.title;
          }
        }
    }
  }

  /** `[result["document"]["title"] for result in rs]` */
  function Titles(rs: seq<SearchResult>): seq<string> {
    seq(|rs|, i requires 0 <= i < |rs| => rs[i].document.title)
  }

  /** Every title on the sources line is the title of a retrieved hit. */
  lemma ContributorsAreRetrieved(results: seq<SearchResult>, qw: seq<string>)
    ensures forall t :: t in Contributions(results, qw).1 ==> t in Titles(results)
  {
    ContributionsMatch(results, qw);
    var idx := Contributors(results, qw);
    var sources := Contributions(results, qw).1;
    forall t | t in sources ensures t in Titles(results) {
      var i :| 0 <= i < |sources| && sources[i] == t;
      assert Titles(results)[idx[i]] == t;
    }
  }

  // ------------------------------------------------------------ the answer

  /**
   * An assembled answer reads: the fixed prefix, the fragments joined by
   * spaces, a full stop, the sources header, the titles joined by commas.
   */
  lemma ComposeAnswerShape(parts: seq<string>, sources: seq<string>)
    ensures var a := ComposeAnswer(parts, sources);
      var tail := SourcesHeader + JoinWith(sources, ", ");
      && AnswerPrefix + JoinWith(parts, " ") <= a
      && EndsWith(a, tail)
      && a[|a| - |tail| - 1] == '.'
  {
    var body := Punctuate(AnswerPrefix + JoinWith(parts, " "));
    var tail := SourcesHeader + JoinWith(sources, ", ");
    var a := body + tail;
    assert a[|a| - |tail|..] == tail;
    assert a[|a| - |tail| - 1] == body[|body| - 1];
  }

  /**
   * The three outcomes of answer generation can be told apart: the "not
   * found" message exactly when there are no hits, the "no specific answer"
   * message exactly when hits exist but none has a relevant sentence, and
   * otherwise an answer that starts with the fixed prefix.
   */
  lemma AnswerTextCases(query: string, results: seq<SearchResult>)
    ensures AnswerText(query, results) == NotFoundMessage <==> results == []
    ensures AnswerText(query, results) == NoExtractMessage <==> results != [] && Contributions(results, QueryWords(query)).0 == []
    ensures results != [] && Contributions(results, QueryWords(query)).0 != [] ==> AnswerPrefix <= AnswerText(query, results)
  {
    var a := AnswerText(query, results);
    if results != [] && Contributions(results, QueryWords(query)).0 != [] {
      var (parts, sources) := Contributions(results, QueryWords(query));
      ComposeAnswerShape(parts, sources);
      assert a[0] == 'B';
    }
    assert NotFoundMessage[0] == '\U{274C}';
    assert NoExtractMessage[0] == 'I';
  }
}
