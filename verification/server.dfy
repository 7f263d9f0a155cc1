/** The search server itself (search-server/main.cpp:92-322): the stop
    words, the inverted index `word_to_document_freqs_` and the document
    table `documents_`, which `AddDocument` updates in place, and the
    queries over them. Each method follows the loops of the source and is
    proved equal to the value-level definitions of the other modules. */
module Server {
  import opened Wrappers
  import opened Lexicographic
  import opened Documents
  import opened InvertedIndex
  import opened QueryParser
  import opened Ranking
  import Tokenizer

  /** `SplitIntoWordsNoStop` over already split words: stop words are
      dropped without being checked, and the first other word holding a
      control character makes the whole call `invalid_argument`. */
  function NoStopWords(stopWords: set<string>, words: seq<string>): (r: Result<seq<string>>)
    ensures r.Err? ==> r.error == InvalidArgument
  {
    if words == [] then Ok([])
    else
      match NoStopWords(stopWords, words[..|words| - 1])
      case Err(e) => Err(e)
      case Ok(kept) =>
        var w := words[|words| - 1];
        if w in stopWords then Ok(kept)
        else if !Tokenizer.IsValidWord(w) then Err(InvalidArgument)
        else Ok(kept + [w])
  }

  /** The filter fails exactly when a word that is not a stop word holds a
      control character; otherwise it keeps every other word as often as it
      occurs, and no stop word. */
  lemma {:induction false} NoStopWordsMeaning(stopWords: set<string>, words: seq<string>)
    ensures NoStopWords(stopWords, words).Err? <==>
      exists j :: 0 <= j < |words| && words[j] !in stopWords && !Tokenizer.IsValidWord(words[j])
    ensures NoStopWords(stopWords, words).Ok? ==>
      forall w :: multiset(NoStopWords(stopWords, words).value)[w] ==
        if w in stopWords then 0 else multiset(words)[w]
  {
    if words != [] {
      var init := words[..|words| - 1];
      var last := words[|words| - 1];
      assert words == init + [last];
      assert forall j :: 0 <= j < |init| ==> init[j] == words[j];
      NoStopWordsMeaning(stopWords, init);
      if NoStopWords(stopWords, words).Ok? {
        var kept := NoStopWords(stopWords, init).value;
        assert multiset(words) == multiset(init) + multiset{last};
        if last !in stopWords {
          assert NoStopWords(stopWords, words).value == kept + [last];
          assert multiset(kept + [last]) == multiset(kept) + multiset{last};
        }
      }
    }
  }

  /** One more word: a stop word is dropped, an invalid word fails, any
      other word is kept at the end. */
  lemma NoStopWordsSnoc(stopWords: set<string>, init: seq<string>, w: string)
    ensures NoStopWords(stopWords, init + [w]) ==
      match NoStopWords(stopWords, init)
      case Err(e) => Err(e)
      case Ok(kept) =>
        if w in stopWords then Ok(kept)
        else if !Tokenizer.IsValidWord(w) then Err(InvalidArgument)
        else Ok(kept + [w])
  {
    assert (init + [w])[..|init|] == init;
  }

  /** A failure among the first `n` words is a failure of the whole. */
  lemma NoStopWordsFailsEarly(stopWords: set<string>, words: seq<string>, n: nat)
    requires n <= |words| && NoStopWords(stopWords, words[..n]).Err?
    ensures NoStopWords(stopWords, words) == Err(InvalidArgument)
  {
    var prefix := words[..n];
    NoStopWordsMeaning(stopWords, prefix);
    NoStopWordsMeaning(stopWords, words);
    var j :| 0 <= j < |prefix| && prefix[j] !in stopWords && !Tokenizer.IsValidWord(prefix[j]);
    assert words[j] == prefix[j];
  }

  /** No stop word survives `SplitIntoWordsNoStop`. */
  lemma NoStopWordsExcludesStopWords(stopWords: set<string>, words: seq<string>)
    requires NoStopWords(stopWords, words).Ok?
    ensures forall w :: w in NoStopWords(stopWords, words).value ==> w !in stopWords
  {
    var kept := NoStopWords(stopWords, words).value;
    NoStopWordsMeaning(stopWords, words);
    forall w | w in kept ensures w !in stopWords {
      assert multiset(kept)[w] > 0;
    }
  }

  /** The words of a document as `AddDocument` stores them. */
  ghost function DocumentWords(stopWords: set<string>, text: string): Result<seq<string>>
  {
    NoStopWords(stopWords, Tokenizer.Words(text))
  }

  /** The predicate of `FindTopDocuments(raw_query, status)`. */
  function StatusIs(status: DocumentStatus): DocumentPredicate
  {
    (id: int, documentStatus: DocumentStatus, rating: int) => documentStatus == status
  }

  /** Whether document `id` holds word `w`, as `MatchDocument` asks. */
  function HoldsWord(index: Index, id: int): string -> bool
  {
    w => w in index && id in index[w]
  }

  /** `MatchDocument(raw_query, document_id)`: the plus words the document
      holds, in the query's (lexicographic) order, or none when it holds a
      minus word, together with its status. A malformed query is
      `invalid_argument`; an unknown id is then `out_of_range`. */
  ghost function Match(stopWords: set<string>, index: Index, documents: map<int, DocumentData>,
                       rawQuery: string, id: int): Result<(seq<string>, DocumentStatus)>
  {
    match ParseQuerySpec(stopWords, rawQuery)
    case Err(e) => Err(e)
    case Ok(query) =>
      if id !in documents then Err(OutOfRange)
      else if HasPosting(index, query.minusWords, id) then Ok(([], documents[id].status))
      else Ok((Keep(query.plusWords, HoldsWord(index, id)), documents[id].status))
  }

  /** The range test of `GetDocumentId` as written: it admits an index
      equal to the document count. */
  predicate GetDocumentIdAdmits(index: int, count: int)
  {
    0 <= index && index <= count
  }

  /** The test as written lets `index == |ids|` through, yet every stored id
      has fewer than `|ids|` smaller ids, so no id sits at that position:
      the iterator advanced that far is the end of the map, and reading
      through it is undefined.  With no documents at all, index 0 is
      already past the end. */
  lemma {:induction false} GetDocumentIdPastTheEnd(ids: set<int>)
    ensures GetDocumentIdAdmits(|ids|, |ids|)
    ensures forall x :: x in ids ==> |Below(ids, x)| < |ids|
  {
    forall x | x in ids
      ensures |Below(ids, x)| < |ids|
    {
      var smaller := Below(ids, x);
      SubsetCardinality(smaller, ids - {x});
    }
  }

  /** Document `id` holds one of the given minus words. */
  ghost predicate Vetoed(index: Index, minusWords: set<string>, id: int)
  {
    exists m :: m in minusWords && m in index && id in index[m]
  }

  /** The posting test `MatchDocument` runs over the minus words asks
      whether the document holds any of them. */
  lemma VetoedByPosting(index: Index, minusWords: seq<string>, id: int)
    ensures HasPosting(index, minusWords, id) <==> Vetoed(index, Elements(minusWords), id)
  {
    if Vetoed(index, Elements(minusWords), id) {
      var m :| m in Elements(minusWords) && m in index && id in index[m];
      var j :| 0 <= j < |minusWords| && minusWords[j] == m;
    }
  }

  /** The plus words kept for document `id` are, in order, those it holds. */
  lemma KeptWords(index: Index, plusWords: seq<string>, id: int)
    requires StrictlySorted(plusWords)
    ensures StrictlySorted(Keep(plusWords, HoldsWord(index, id)))
    ensures forall w :: w in Keep(plusWords, HoldsWord(index, id)) <==> w in plusWords && w in index && id in index[w]
  {
    FilterSorted(plusWords, HoldsWord(index, id));
    forall w ensures w in Keep(plusWords, HoldsWord(index, id)) <==> w in plusWords && w in index && id in index[w] {
      assert w in Keep(plusWords, HoldsWord(index, id)) <==> w in Elements(Keep(plusWords, HoldsWord(index, id)));
    }
  }

  /** What `MatchDocument` promises: a malformed query is
      `invalid_argument` and an unknown id `out_of_range`; otherwise the
      stored status, and the query's plus words the document holds, in
      lexicographic order, unless it holds one of the query's minus words,
      in which case no word at all. */
  lemma MatchDocumentMeaning(stopWords: set<string>, index: Index, documents: map<int, DocumentData>,
                             rawQuery: string, id: int)
    ensures ParseQuerySpec(stopWords, rawQuery).Err? ==> Match(stopWords, index, documents, rawQuery, id) == Err(InvalidArgument)
    ensures ParseQuerySpec(stopWords, rawQuery).Ok? && id !in documents ==>
      Match(stopWords, index, documents, rawQuery, id) == Err(OutOfRange)
    ensures ParseQuerySpec(stopWords, rawQuery).Ok? && id in documents ==>
      Match(stopWords, index, documents, rawQuery, id).Ok?
    ensures Match(stopWords, index, documents, rawQuery, id).Ok? ==>
      && id in documents
      && Match(stopWords, index, documents, rawQuery, id).value.1 == documents[id].status
      && StrictlySorted(Match(stopWords, index, documents, rawQuery, id).value.0)
      && (forall w :: w in Match(stopWords, index, documents, rawQuery, id).value.0 <==>
            && !Vetoed(index, MinusSet(stopWords, Tokenizer.Words(rawQuery)), id)
            && w in PlusSet(stopWords, Tokenizer.Words(rawQuery)) && w in index && id in index[w])
  {
    var parsed := ParseQuerySpec(stopWords, rawQuery);
    if parsed.Ok? && id in documents {
      var text := Tokenizer.Words(rawQuery);
      var query := parsed.value;
      ParseWordsSets(stopWords, text);
      VetoedByPosting(index, query.minusWords, id);
      KeptWords(index, query.plusWords, id);
      var words := Match(stopWords, index, documents, rawQuery, id).value.0;
      forall w ensures w in query.plusWords <==> w in PlusSet(stopWords, text) {
        assert w in query.plusWords <==> w in Elements(query.plusWords);
      }
      if HasPosting(index, query.minusWords, id) {
        assert words == [];
      } else {
        assert words == Keep(query.plusWords, HoldsWord(index, id));
      }
    }
  }

  class SearchServer {
    /** `stop_words_`. */
    const stopWords: set<string>
    /** The natural logarithm `ComputeWordInverseDocumentFreq` applies. */
    const ln: real -> real
    /** `word_to_document_freqs_`. */
    var wordToDocumentFreqs: Index
    /** `documents_`. */
    var documents: map<int, DocumentData>
    /** The non-stop words each document was added with. */
    ghost var documentWords: map<int, seq<string>>

    ghost predicate Valid()
      reads this
    {
      Consistent(stopWords, wordToDocumentFreqs, documents, documentWords)
    }

    /** An empty server with the given stop words. */
    constructor (stopWords: set<string>, ln: real -> real)
      ensures Valid()
      ensures this.stopWords == stopWords && this.ln == ln
      ensures wordToDocumentFreqs == map[] && documents == map[] && documentWords == map[]
    {
      this.stopWords := stopWords;
      this.ln := ln;
      wordToDocumentFreqs := map[];
      documents := map[];
      documentWords := map[];
    }

    /** `SearchServer(const StringContainer& stop_words)`: the non-empty
        stop words are kept; any stop word holding a control character
        makes construction `invalid_argument`. */
    static method FromStopWords(stopWords: seq<string>, ln: real -> real) returns (r: Result<SearchServer>)
      ensures r.Err? <==> exists j :: 0 <= j < |stopWords| && !Tokenizer.IsValidWord(stopWords[j])
      ensures r.Err? ==> r.error == InvalidArgument
      ensures r.Ok? ==> fresh(r.value) && r.value.Valid() && r.value.ln == ln
      ensures r.Ok? ==> forall w :: w in r.value.stopWords <==> w in stopWords && w != []
      ensures r.Ok? ==> r.value.documents == map[] && r.value.wordToDocumentFreqs == map[]
    {
      var unique := Tokenizer.MakeUniqueNonEmptyStrings(stopWords);
      for i := 0 to |stopWords|
        invariant forall j :: 0 <= j < i ==> Tokenizer.IsValidWord(stopWords[j])
      {
        if !Tokenizer.IsValidWord(stopWords[i]) {
          return Err(InvalidArgument);
        }
      }
      var server := new SearchServer(unique, ln);
      return Ok(server);
    }

    /** `SearchServer(const string& stop_words_text)`: the stop words are
        the words of the text. */
    static method FromStopWordsText(text: string, ln: real -> real) returns (r: Result<SearchServer>)
      ensures r.Err? <==> exists w :: w in Tokenizer.Words(text) && !Tokenizer.IsValidWord(w)
      ensures r.Err? ==> r.error == InvalidArgument
      ensures r.Ok? ==> fresh(r.value) && r.value.Valid() && r.value.ln == ln
      ensures r.Ok? ==> forall w :: w in r.value.stopWords <==> w in Tokenizer.Words(text)
      ensures r.Ok? ==> r.value.documents == map[] && r.value.wordToDocumentFreqs == map[]
    {
      var words := Tokenizer.SplitIntoWords(text);
      r := FromStopWords(words, ln);
    }

    /** `SplitIntoWordsNoStop`. */
    method SplitIntoWordsNoStop(text: string) returns (r: Result<seq<string>>)
      ensures r == DocumentWords(stopWords, text)
    {
      var words := Tokenizer.SplitIntoWords(text);
      r := DropStopWords(words);
    }

    /** The loop of `SplitIntoWordsNoStop` over the split words. */
    method DropStopWords(words: seq<string>) returns (r: Result<seq<string>>)
      ensures r == NoStopWords(stopWords, words)
    {
      var kept: seq<string> := [];
      for i := 0 to |words|
        invariant NoStopWords(stopWords, words[..i]) == Ok(kept)
      {
        assert words[..i + 1] == words[..i] + [words[i]];
        NoStopWordsSnoc(stopWords, words[..i], words[i]);
        var word := words[i];
        if word !in stopWords {
          if !Tokenizer.IsValidWord(word) {
            NoStopWordsFailsEarly(stopWords, words, i + 1);
            return Err(InvalidArgument);
          }
          kept := kept + [word];
        }
      }
      assert words[..|words|] == words;
      return Ok(kept);
    }

    /** `AddDocument`: a negative or already used id, or a non-stop word
        holding a control character, is `invalid_argument` and changes
        nothing; otherwise every non-stop word of the text gets a posting
        with its term frequency and the document is stored with its average
        rating and status. */
    method AddDocument(id: int, text: string, status: DocumentStatus, ratings: seq<int>) returns (r: Outcome)
      requires Valid()
      modifies this
      ensures Valid()
      ensures r.Pass? <==> id >= 0 && id !in old(documents) && DocumentWords(stopWords, text).Ok?
      ensures r.Fail? ==> r.error == InvalidArgument
      ensures r.Fail? ==> unchanged(this)
      ensures r.Pass? ==>
        var words := DocumentWords(stopWords, text).value;
        && documents == old(documents)[id := DocumentData(ComputeAverageRating(ratings), status)]
        && wordToDocumentFreqs == AddPostings(old(wordToDocumentFreqs), id, words)
        && documentWords == old(documentWords)[id := words]
        && |documents| == |old(documents)| + 1
    {
      if id < 0 {
        return Fail(InvalidArgument);
      }
      if id in documents {
        return Fail(InvalidArgument);
      }
      var split := SplitIntoWordsNoStop(text);
      if split.Err? {
        return Fail(InvalidArgument);
      }
      var words := split.value;
      NoStopWordsExcludesStopWords(stopWords, Tokenizer.Words(text));
      AddKeepsConsistent(stopWords, wordToDocumentFreqs, documents, documentWords, id, words,
                         DocumentData(ComputeAverageRating(ratings), status));
      wordToDocumentFreqs := IndexWords(wordToDocumentFreqs, id, words);
      documents := documents[id := DocumentData(ComputeAverageRating(ratings), status)];
      documentWords := documentWords[id := words];
      r := Pass;
    }

    /** The loop of `AddDocument` that adds `1.0 / words.size()` to the
        posting of `id` once per occurrence of each word. With no words the
        loop does nothing (the source's `inv_word_count` is then never used). */
    static method IndexWords(index: Index, id: int, words: seq<string>) returns (r: Index)
      requires IdFree(index, id)
      ensures r == AddPostings(index, id, words)
    {
      r := index;
      if words == [] {
        assert Elements(words) == {};
        return;
      }
      var invWordCount := 1.0 / |words| as real;
      assert words[..0] == [];
      AccumulatedStart(index, id, invWordCount);
      for i := 0 to |words|
        invariant Accumulated(index, id, words[..i], invWordCount, r)
      {
        var w := words[i];
        assert words[..i + 1] == words[..i] + [w];
        var postings := if w in r then r[w] else map[];
        var current := if id in postings then postings[id] else 0.0;
        ghost var before := r;
        r := r[w := postings[id := current + invWordCount]];
        AccumulatedStep(index, id, words[..i], w, invWordCount, before, r);
      }
      assert words[..|words|] == words;
      AccumulatedDone(index, id, words, r);
    }

    /** `ParseQuery`: the words of the text, each through `ParseQueryWord`;
        stop words are dropped and the others inserted into the plus or the
        minus set. The first malformed word is `invalid_argument`. */
    method ParseQuery(text: string) returns (r: Result<Query>)
      ensures r == ParseQuerySpec(stopWords, text)
    {
      var words := Tokenizer.SplitIntoWords(text);
      var query := Query([], []);
      for i := 0 to |words|
        invariant ParseWords(stopWords, words[..i]) == Ok(query)
      {
        assert words[..i + 1][..i] == words[..i];
        var parsed := ParseQueryWord(stopWords, words[i]);
        if parsed.Err? {
          ParseWordsFails(stopWords, words);
          return Err(parsed.error);
        }
        var word := parsed.value;
        if !word.isStop {
          if word.isMinus {
            query := Query(query.plusWords, Insert(query.minusWords, word.data));
          } else {
            query := Query(Insert(query.plusWords, word.data), query.minusWords);
          }
        }
      }
      assert words[..|words|] == words;
      return Ok(query);
    }

    /** `ComputeWordInverseDocumentFreq`, for an indexed word. */
    method ComputeWordInverseDocumentFreq(word: string) returns (idf: real)
      requires Valid() && word in wordToDocumentFreqs
      ensures |wordToDocumentFreqs[word]| > 0
      ensures idf == Idf(ln, |documents|, |wordToDocumentFreqs[word]|)
    {
      assert wordToDocumentFreqs[word] != map[];
      var containing := |wordToDocumentFreqs[word]|;
      assert containing > 0;
      idf := ln(|documents| as real * 1.0 / containing as real);
    }

    /** Between calls, no word is in more documents than the server holds,
        and every indexed word is in at least one: the argument of the
        logarithm in the idf is at least 1. */
    lemma DocumentFrequencyBounded(word: string)
      requires Valid() && word in wordToDocumentFreqs
      ensures 0 < |wordToDocumentFreqs[word]| <= |documents|
      ensures |documents| as real / |wordToDocumentFreqs[word]| as real >= 1.0
    {
      var postings := wordToDocumentFreqs[word];
      assert postings != map[];
      assert postings.Keys <= documents.Keys by {
        forall d | d in postings ensures d in documents {
          assert d in documentWords;
        }
      }
      SubsetCardinality(postings.Keys, documents.Keys);
      assert |postings.Keys| == |postings| && |documents.Keys| == |documents|;
      if |postings| == 0 {
        assert false;
      }
    }

    /** `relevance` holds, for the plus words `words` seen so far, the
        documents that hold one of them and pass `pred`, with their
        relevance. */
    ghost predicate RelevanceSoFar(relevance: map<int, real>, words: seq<string>, pred: DocumentPredicate)
      reads this
    {
      && (forall id :: id in relevance <==>
            id in documents && Accepts(pred, documents, id) && HasPosting(wordToDocumentFreqs, words, id))
      && (forall id :: id in relevance ==>
            relevance[id] == Relevance(wordToDocumentFreqs, |documents|, ln, words, id))
    }

    /** The inner loop of the plus words in `FindAllDocuments`: every
        posting of `word` whose document passes `pred` adds tf times idf to
        that document's relevance. */
    method AddWordRelevance(relevance: map<int, real>, word: string, idf: real, pred: DocumentPredicate,
                            ghost words: seq<string>) returns (r: map<int, real>)
      requires word in wordToDocumentFreqs && wordToDocumentFreqs[word] != map[]
      requires forall id :: id in wordToDocumentFreqs[word] ==> id in documents
      requires idf == Idf(ln, |documents|, |wordToDocumentFreqs[word]|)
      requires RelevanceSoFar(relevance, words, pred)
      ensures RelevanceSoFar(r, words + [word], pred)
    {
      RelevanceInWordStart(wordToDocumentFreqs, documents, ln, pred, words, word, relevance);
      var postings := wordToDocumentFreqs[word];
      var todo := postings.Keys;
      r := relevance;
      while todo != {}
        invariant todo <= postings.Keys
        invariant RelevanceInWord(wordToDocumentFreqs, documents, ln, pred, words, word, todo, r)
        decreases |todo|
      {
        HasMember(todo);
        var id :| id in todo;
        ghost var before := r;
        var accepted := Accepts(pred, documents, id);
        if accepted {
          var current := if id in r then r[id] else 0.0;
          assert postings[id] * idf == Contribution(wordToDocumentFreqs, |documents|, ln, word, id);
          r := r[id := current + postings[id] * idf];
        }
        RelevanceInWordStep(wordToDocumentFreqs, documents, ln, pred, words, word, todo, before, id, accepted, r);
        todo := todo - {id};
      }
      RelevanceOfNextWord(wordToDocumentFreqs, documents, ln, pred, words, word, r);
    }

    /** The loop of `FindAllDocuments` over the plus words. */
    method PlusWordsRelevance(plusWords: seq<string>, pred: DocumentPredicate) returns (r: map<int, real>)
      requires Valid()
      ensures RelevanceSoFar(r, plusWords, pred)
    {
      r := map[];
      assert plusWords[..0] == [];
      for i := 0 to |plusWords|
        invariant RelevanceSoFar(r, plusWords[..i], pred)
      {
        assert plusWords[..i + 1] == plusWords[..i] + [plusWords[i]];
        r := AddPlusWord(r, plusWords[i], pred, plusWords[..i]);
      }
      assert plusWords[..|plusWords|] == plusWords;
    }

    /** One turn of the plus word loop of `FindAllDocuments`: a word the
        index lacks is skipped, any other adds its contributions. */
    method AddPlusWord(relevance: map<int, real>, word: string, pred: DocumentPredicate,
                       ghost words: seq<string>) returns (r: map<int, real>)
      requires Valid()
      requires RelevanceSoFar(relevance, words, pred)
      ensures RelevanceSoFar(r, words + [word], pred)
    {
      if word !in wordToDocumentFreqs {
        UnindexedWord(wordToDocumentFreqs, |documents|, ln, words, word);
        return relevance;
      }
      var idf := ComputeWordInverseDocumentFreq(word);
      assert forall id :: id in wordToDocumentFreqs[word] ==> id in documentWords;
      r := AddWordRelevance(relevance, word, idf, pred, words);
    }

    /** The loop of `FindAllDocuments` over the minus words: every document
        holding one of them is erased. */
    method EraseMinusWords(relevance: map<int, real>, minusWords: seq<string>) returns (r: map<int, real>)
      ensures forall id :: id in r <==> id in relevance && !HasPosting(wordToDocumentFreqs, minusWords, id)
      ensures forall id :: id in r ==> r[id] == relevance[id]
    {
      r := relevance;
      assert minusWords[..0] == [];
      for j := 0 to |minusWords|
        invariant forall id :: id in r <==>
          id in relevance && !HasPosting(wordToDocumentFreqs, minusWords[..j], id)
        invariant forall id :: id in r ==> r[id] == relevance[id]
      {
        var word := minusWords[j];
        assert minusWords[..j + 1] == minusWords[..j] + [word];
        forall id ensures HasPosting(wordToDocumentFreqs, minusWords[..j + 1], id) <==>
                          HasPosting(wordToDocumentFreqs, minusWords[..j], id)
                          || (word in wordToDocumentFreqs && id in wordToDocumentFreqs[word]) {
          HasPostingSnoc(wordToDocumentFreqs, minusWords[..j], word, id);
        }
        if word !in wordToDocumentFreqs {
          continue;
        }
        var postings := wordToDocumentFreqs[word];
        var todo := postings.Keys;
        while todo != {}
          invariant todo <= postings.Keys
          invariant forall id :: id in r <==>
            id in relevance && !HasPosting(wordToDocumentFreqs, minusWords[..j], id)
            && !(id in postings && id !in todo)
          invariant forall id :: id in r ==> r[id] == relevance[id]
          decreases |todo|
        {
          HasMember(todo);
          var id :| id in todo;
          r := r - {id};
          todo := todo - {id};
        }
      }
      assert minusWords[..|minusWords|] == minusWords;
    }

    /** The last loop of `FindAllDocuments`: one result per remaining
        document, in ascending id order, with its relevance and its stored
        rating. */
    method CollectDocuments(relevance: map<int, real>, ghost plusWords: seq<string>) returns (matched: seq<Document>)
      requires forall id :: id in relevance ==> id in documents
      requires forall id :: id in relevance ==>
        relevance[id] == Relevance(wordToDocumentFreqs, |documents|, ln, plusWords, id)
      ensures matched == ResultsFor(wordToDocumentFreqs, documents, ln, plusWords, Ascending(relevance.Keys))
    {
      matched := [];
      var remaining := relevance.Keys;
      ghost var done: seq<int> := [];
      while remaining != {}
        invariant remaining <= relevance.Keys
        invariant forall k :: 0 <= k < |done| ==> done[k] in relevance
        invariant done + Ascending(remaining) == Ascending(relevance.Keys)
        invariant matched == ResultsFor(wordToDocumentFreqs, documents, ln, plusWords, done)
        decreases |remaining|
      {
        MinExists(remaining);
        var id :| id in remaining && forall x :: x in remaining ==> id <= x;
        AscendingStep(relevance.Keys, remaining, done, id);
        ResultsForSnoc(wordToDocumentFreqs, documents, ln, plusWords, done, id);
        matched := matched + [Document(id, relevance[id], documents[id].rating)];
        done := done + [id];
        remaining := remaining - {id};
      }
    }

    /** `FindAllDocuments`: the documents that hold a plus word, pass the
        predicate and hold no minus word, in ascending id order. */
    method FindAllDocuments(query: Query, pred: DocumentPredicate) returns (matched: seq<Document>)
      requires Valid()
      ensures matched == FindAll(wordToDocumentFreqs, documents, ln, query, pred)
    {
      var relevance := PlusWordsRelevance(query.plusWords, pred);
      relevance := EraseMinusWords(relevance, query.minusWords);
      forall id ensures id in relevance <==> id in Matches(wordToDocumentFreqs, documents, query, pred) {
      }
      assert relevance.Keys == Matches(wordToDocumentFreqs, documents, query, pred);
      matched := CollectDocuments(relevance, query.plusWords);
    }

    /** `FindTopDocuments(raw_query, document_predicate)`. */
    method FindTopDocuments(rawQuery: string, pred: DocumentPredicate) returns (r: Result<seq<Document>>)
      requires Valid()
      ensures r == FindTop(stopWords, wordToDocumentFreqs, documents, ln, rawQuery, pred)
    {
      if rawQuery == [] {
        return Err(InvalidArgument);
      }
      var parsed := ParseQuery(rawQuery);
      if parsed.Err? {
        return Err(parsed.error);
      }
      var matched := FindAllDocuments(parsed.value, pred);
      var top := SortAndResize(matched);
      r := Ok(top);
    }

    /** `FindTopDocuments(raw_query, status)`. */
    method FindTopDocumentsByStatus(rawQuery: string, status: DocumentStatus) returns (r: Result<seq<Document>>)
      requires Valid()
      ensures r == FindTop(stopWords, wordToDocumentFreqs, documents, ln, rawQuery, StatusIs(status))
    {
      r := FindTopDocuments(rawQuery, StatusIs(status));
    }

    /** `FindTopDocuments(raw_query)`: the actual documents. */
    method FindTopDocumentsActual(rawQuery: string) returns (r: Result<seq<Document>>)
      requires Valid()
      ensures r == FindTop(stopWords, wordToDocumentFreqs, documents, ln, rawQuery, StatusIs(Actual))
    {
      r := FindTopDocumentsByStatus(rawQuery, Actual);
    }

    /** `MatchDocument`: the plus word loop, then the minus word loop,
        which clears the list at the first minus word the document holds;
        an unknown id is `out_of_range` (`documents_.at`). */
    method MatchDocument(rawQuery: string, id: int) returns (r: Result<(seq<string>, DocumentStatus)>)
      ensures r == Match(stopWords, wordToDocumentFreqs, documents, rawQuery, id)
    {
      var parsed := ParseQuery(rawQuery);
      if parsed.Err? {
        return Err(parsed.error);
      }
      var query := parsed.value;
      var matchedWords := HeldWords(query.plusWords, id);
      var vetoed := HoldsAnyWord(query.minusWords, id);
      if vetoed {
        matchedWords := [];
      }
      if id !in documents {
        return Err(OutOfRange);
      }
      return Ok((matchedWords, documents[id].status));
    }

    /** The plus word loop of `MatchDocument`: the words, in order, with a
        posting for `id`. */
    method HeldWords(plusWords: seq<string>, id: int) returns (matchedWords: seq<string>)
      ensures matchedWords == Keep(plusWords, HoldsWord(wordToDocumentFreqs, id))
    {
      var holds := HoldsWord(wordToDocumentFreqs, id);
      matchedWords := [];
      assert plusWords[..0] == [];
      for i := 0 to |plusWords|
        invariant matchedWords == Keep(plusWords[..i], holds)
      {
        var word := plusWords[i];
        assert plusWords[..i + 1] == plusWords[..i] + [word];
        KeepSnoc(plusWords[..i], word, holds);
        if word !in wordToDocumentFreqs {
          continue;
        }
        if id in wordToDocumentFreqs[word] {
          matchedWords := matchedWords + [word];
        }
      }
      assert plusWords[..|plusWords|] == plusWords;
    }

    /** The minus word loop of `MatchDocument`: whether some word has a
        posting for `id`, stopping at the first one. */
    method HoldsAnyWord(minusWords: seq<string>, id: int) returns (found: bool)
      ensures found == HasPosting(wordToDocumentFreqs, minusWords, id)
    {
      assert minusWords[..0] == [];
      for j := 0 to |minusWords|
        invariant !HasPosting(wordToDocumentFreqs, minusWords[..j], id)
      {
        var word := minusWords[j];
        assert minusWords[..j + 1] == minusWords[..j] + [word];
        HasPostingSnoc(wordToDocumentFreqs, minusWords[..j], word, id);
        if word !in wordToDocumentFreqs {
          continue;
        }
        if id in wordToDocumentFreqs[word] {
          assert minusWords[j] in wordToDocumentFreqs && id in wordToDocumentFreqs[minusWords[j]];
          return true;
        }
      }
      assert minusWords[..|minusWords|] == minusWords;
      return false;
    }

    /** `GetDocumentId(index)`, with the range the source evidently
        intends: the id at position `index` in ascending id order, and
        `out_of_range` for any index outside `[0, GetDocumentCount())`. */
    method GetDocumentId(index: int) returns (r: Result<int>)
      ensures r.Ok? <==> 0 <= index < |documents|
      ensures r.Err? ==> r.error == OutOfRange
      ensures r.Ok? ==> r.value == Ascending(documents.Keys)[index]
      ensures r.Ok? ==> r.value in documents && |Below(documents.Keys, r.value)| == index
    {
      if !(0 <= index < |documents|) {
        return Err(OutOfRange);
      }
      AscendingRank(documents.Keys, index);
      var remaining := documents.Keys;
      ghost var ascending := Ascending(documents.Keys);
      for step := 0 to index
        invariant Ascending(remaining) == ascending[step..]
      {
        MinExists(remaining);
        var least :| least in remaining && forall x :: x in remaining ==> least <= x;
        AscendingCons(remaining, least);
        assert ascending[step + 1..] == ascending[step..][1..];
        remaining := remaining - {least};
      }
      MinExists(remaining);
      var least :| least in remaining && forall x :: x in remaining ==> least <= x;
      AscendingCons(remaining, least);
      return Ok(least);
    }

    /** `GetDocumentCount`. */
    method GetDocumentCount() returns (count: int)
      ensures count == |documents|
    {
      count := |documents|;
    }
  }
}
