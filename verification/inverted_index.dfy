/** The inverted index `word_to_document_freqs_` and what `AddDocument`
    does to it (search-server/main.cpp:101-115, 204-231). Term frequencies
    are `double` in the source and exact reals here. */
module InvertedIndex {
  import opened Documents
  import opened Lexicographic

  /** word -> (document id -> term frequency). */
  type Index = map<string, map<int, real>>

  /** How often `w` occurs among `words`. */
  function Count(words: seq<string>, w: string): nat
  {
    multiset(words)[w]
  }

  /** The term frequency `AddDocument` accumulates for `w`: one
      `inv_word_count = 1.0 / words.size()` per occurrence. */
  function Tf(words: seq<string>, w: string): real
    requires words != []
  {
    Count(words, w) as real * (1.0 / |words| as real)
  }

  /** What the loop of `AddDocument` has added for `w` after the words
      `prefix`: `inv` once per occurrence. */
  function Accrued(prefix: seq<string>, w: string, inv: real): real
  {
    Count(prefix, w) as real * inv
  }

  /** One more word adds `inv` for itself and nothing for the others. */
  lemma AccruedSnoc(prefix: seq<string>, x: string, w: string, inv: real)
    ensures Accrued(prefix + [x], w, inv) == Accrued(prefix, w, inv) + (if w == x then inv else 0.0)
  {
    assert multiset(prefix + [x]) == multiset(prefix) + multiset{x};
    if w == x {
      var c := Count(prefix, w) as real;
      assert c * inv + inv == (c + 1.0) * inv;
    }
  }

  /** The postings of `w`, empty when `w` is not indexed. */
  function Postings(index: Index, w: string): map<int, real>
  {
    if w in index then index[w] else map[]
  }

  /** The frequency of `w` in document `id`, 0 when there is no posting. */
  function Frequency(index: Index, w: string, id: int): real
  {
    if w in index && id in index[w] then index[w][id] else 0.0
  }

  /** No word has a posting for `id` yet. */
  ghost predicate IdFree(index: Index, id: int)
  {
    forall w :: w in index ==> id !in index[w]
  }

  /** The index after the loop of `AddDocument(id, …)` over the document's
      non-stop `words`: each word gets a posting for `id` holding its term
      frequency, and nothing else changes. */
  ghost function AddPostings(index: Index, id: int, words: seq<string>): (r: Index)
    ensures r.Keys == index.Keys + Elements(words)
    ensures forall w, d :: d != id ==> (w in r && d in r[w] <==> w in index && d in index[w])
    ensures forall w, d :: d != id && w in index && d in index[w] ==> r[w][d] == index[w][d]
    ensures IdFree(index, id) ==> forall w :: w in r ==> (id in r[w] <==> w in words)
    ensures forall w :: w in words ==> w in r && id in r[w] && r[w][id] == Tf(words, w)
  {
    map w | w in index.Keys + Elements(words) ::
      if w in words then Postings(index, w)[id := Tf(words, w)] else index[w]
  }

  /** The index `r` after the loop of `AddDocument` has gone through the
      words `prefix`, adding `inv` per occurrence: each of those words has
      the posting `Accrued(prefix, w, inv)` for `id`, and nothing else has
      changed. */
  ghost predicate Accumulated(index: Index, id: int, prefix: seq<string>, inv: real, r: Index)
  {
    && IdFree(index, id)
    && r.Keys == index.Keys + Elements(prefix)
    && (forall v :: v in r && v !in prefix ==> r[v] == index[v])
    && (forall v :: v in prefix ==> r[v] == Postings(index, v)[id := Accrued(prefix, v, inv)])
  }

  lemma AccumulatedStart(index: Index, id: int, inv: real)
    requires IdFree(index, id)
    ensures Accumulated(index, id, [], inv, index)
  {
    assert Elements([]) == {};
  }

  /** One step of the loop of `AddDocument`: the posting of `w` for `id`
      grows by `inv`. */
  lemma AccumulatedStep(index: Index, id: int, prefix: seq<string>, w: string, inv: real,
                        before: Index, after: Index)
    requires Accumulated(index, id, prefix, inv, before)
    requires var postings := if w in before then before[w] else map[];
      after == before[w := postings[id := (if id in postings then postings[id] else 0.0) + inv]]
    ensures Accumulated(index, id, prefix + [w], inv, after)
  {
    assert Elements(prefix + [w]) == Elements(prefix) + {w};
    forall v | v in prefix + [w]
      ensures after[v] == Postings(index, v)[id := Accrued(prefix + [w], v, inv)]
    {
      AccumulatedStepAt(index, id, prefix, w, inv, before, after, v);
    }
  }

  /** The step above, for one word `v` of the extended prefix. */
  lemma AccumulatedStepAt(index: Index, id: int, prefix: seq<string>, w: string, inv: real,
                          before: Index, after: Index, v: string)
    requires Accumulated(index, id, prefix, inv, before)
    requires var postings := if w in before then before[w] else map[];
      after == before[w := postings[id := (if id in postings then postings[id] else 0.0) + inv]]
    requires v in prefix + [w]
    ensures v in after && after[v] == Postings(index, v)[id := Accrued(prefix + [w], v, inv)]
  {
    AccruedSnoc(prefix, w, v, inv);
    if v == w {
      if w in prefix {
        assert w in Elements(prefix);
      } else {
        assert Count(prefix, w) == 0;
        assert w in before <==> w in index;
        assert w in before ==> before[w] == index[w];
        assert w in index ==> id !in index[w];
        assert Accrued(prefix, w, inv) == 0.0;
      }
    } else {
      assert v in prefix;
      assert v in Elements(prefix);
      assert after[v] == before[v];
    }
  }

  /** After all the words, with `inv` one over their number, the loop has
      built `AddPostings`. */
  lemma AccumulatedDone(index: Index, id: int, words: seq<string>, r: Index)
    requires words != []
    requires Accumulated(index, id, words, 1.0 / |words| as real, r)
    ensures r == AddPostings(index, id, words)
  {
    var spec := AddPostings(index, id, words);
    forall w | w in r ensures r[w] == spec[w] {
      if w in words {
        assert Accrued(words, w, 1.0 / |words| as real) == Tf(words, w);
      }
    }
  }

  ghost predicate Distinct(ks: seq<string>)
  {
    forall i, j :: 0 <= i < j < |ks| ==> ks[i] != ks[j]
  }

  /** The sum of the frequencies of `ks` in document `id`. */
  function TotalFrequency(index: Index, id: int, ks: seq<string>): real
  {
    if ks == [] then 0.0 else Frequency(index, ks[0], id) + TotalFrequency(index, id, ks[1..])
  }

  /** The sum of the multiplicities in `m` of the keys `ks`. */
  function SumCounts(ks: seq<string>, m: multiset<string>): int
  {
    if ks == [] then 0 else m[ks[0]] + SumCounts(ks[1..], m)
  }

  lemma {:induction false} SumCountsEmpty(ks: seq<string>)
    ensures SumCounts(ks, multiset{}) == 0
  {
    if ks != [] {
      SumCountsEmpty(ks[1..]);
    }
  }

  lemma {:induction false} SumCountsAdd(ks: seq<string>, m: multiset<string>, x: string)
    requires Distinct(ks) && x in ks
    ensures SumCounts(ks, m + multiset{x}) == SumCounts(ks, m) + 1
  {
    if ks[0] == x {
      SumCountsUnchanged(ks[1..], m, x);
    } else {
      SumCountsAdd(ks[1..], m, x);
    }
  }

  lemma {:induction false} SumCountsUnchanged(ks: seq<string>, m: multiset<string>, x: string)
    requires x !in ks
    ensures SumCounts(ks, m + multiset{x}) == SumCounts(ks, m)
  {
    if ks != [] {
      SumCountsUnchanged(ks[1..], m, x);
    }
  }

  /** Counting every distinct word once counts all the words. */
  lemma {:induction false} SumCountsAll(words: seq<string>, ks: seq<string>)
    requires Distinct(ks) && Elements(words) <= Elements(ks)
    ensures SumCounts(ks, multiset(words)) == |words|
  {
    if words == [] {
      SumCountsEmpty(ks);
    } else {
      var init := words[..|words| - 1];
      var last := words[|words| - 1];
      assert words == init + [last];
      assert Elements(init) <= Elements(words);
      SumCountsAll(init, ks);
      assert last in Elements(ks);
      SumCountsAdd(ks, multiset(init), last);
    }
  }

  /** Where every frequency is the word's count times `inv`, the total is
      the summed count times `inv`. */
  lemma {:induction false} TotalOfCounts(index: Index, id: int, ks: seq<string>, words: seq<string>)
    requires words != []
    requires forall k :: k in ks ==> Frequency(index, k, id) == Tf(words, k)
    ensures TotalFrequency(index, id, ks)
         == SumCounts(ks, multiset(words)) as real * (1.0 / |words| as real)
  {
    if ks != [] {
      TotalOfCounts(index, id, ks[1..], words);
      assert ks[0] in ks;
    }
  }

  /** The frequencies of a document's distinct words sum to one. */
  lemma FrequenciesSumToOne(index: Index, id: int, ks: seq<string>, words: seq<string>)
    requires words != []
    requires Distinct(ks) && Elements(ks) == Elements(words)
    requires forall k :: k in ks ==> Frequency(index, k, id) == Tf(words, k)
    ensures TotalFrequency(index, id, ks) == 1.0
  {
    TotalOfCounts(index, id, ks, words);
    SumCountsAll(words, ks);
    var n := |words| as real;
    assert n * (1.0 / n) == 1.0;
  }

  /** After `AddDocument` indexes a document with at least one non-stop
      word, its term frequencies over all its distinct words sum to one. */
  lemma AddedFrequenciesSumToOne(index: Index, id: int, words: seq<string>, ks: seq<string>)
    requires IdFree(index, id) && words != []
    requires Distinct(ks) && Elements(ks) == Elements(words)
    ensures TotalFrequency(AddPostings(index, id, words), id, ks) == 1.0
  {
    var r := AddPostings(index, id, words);
    forall k | k in ks ensures Frequency(r, k, id) == Tf(words, k) {
      assert k in Elements(ks);
    }
    FrequenciesSumToOne(r, id, ks, words);
  }

  /** What the server keeps true of `word_to_document_freqs_` and
      `documents_` between calls. `docWords` is the model's record of each
      document's non-stop words, which the source does not keep: no stop
      word is indexed, every posting belongs to a stored document and holds
      that word's term frequency in it, and each stored word is indexed. */
  ghost predicate Consistent(stopWords: set<string>, index: Index,
                             documents: map<int, DocumentData>, docWords: map<int, seq<string>>)
  {
    && docWords.Keys == documents.Keys
    && (forall id :: id in documents ==> id >= 0)
    && (forall w :: w in index ==> w !in stopWords && index[w] != map[])
    && (forall w, id :: w in index && id in index[w] ==>
          id in docWords && docWords[id] != [] && w in docWords[id] && index[w][id] == Tf(docWords[id], w))
    && (forall id, w :: id in docWords && w in docWords[id] ==> w in index && id in index[w])
  }

  /** A successful `AddDocument` keeps the tables consistent. */
  lemma AddKeepsConsistent(stopWords: set<string>, index: Index, documents: map<int, DocumentData>,
                           docWords: map<int, seq<string>>, id: int, words: seq<string>, data: DocumentData)
    requires Consistent(stopWords, index, documents, docWords)
    requires id >= 0 && id !in documents
    requires forall w :: w in words ==> w !in stopWords
    ensures IdFree(index, id)
    ensures Consistent(stopWords, AddPostings(index, id, words), documents[id := data], docWords[id := words])
  {
    var r := AddPostings(index, id, words);
    var dw := docWords[id := words];
    forall w | w in r ensures w !in stopWords && r[w] != map[] {
      if w !in words {
        assert w in index;
        var d := SomeKey(index[w]);
        assert d in r[w];
      }
    }
    forall w, d | w in r && d in r[w]
      ensures d in dw && dw[d] != [] && w in dw[d] && r[w][d] == Tf(dw[d], w)
    {
    }
  }

  /** A non-empty set of ids has a member to pick. */
  lemma HasMember(s: set<int>)
    requires s != {}
    ensures exists d :: d in s
  {
    if !exists d :: d in s {
      assert false;
    }
  }

  lemma SomeKey(m: map<int, real>) returns (d: int)
    requires m != map[]
    ensures d in m
  {
    if !exists k :: k in m {
      assert false;
    }
    d :| d in m;
  }

  /** Between calls, the frequencies of every stored document that has a
      non-stop word sum to one over the words indexed for it. */
  lemma StoredFrequenciesSumToOne(stopWords: set<string>, index: Index, documents: map<int, DocumentData>,
                                  docWords: map<int, seq<string>>, id: int, ks: seq<string>)
    requires Consistent(stopWords, index, documents, docWords)
    requires id in docWords && docWords[id] != []
    requires Distinct(ks) && Elements(ks) == set w | w in index && id in index[w]
    ensures TotalFrequency(index, id, ks) == 1.0
  {
    var words := docWords[id];
    assert Elements(ks) == Elements(words);
    forall k | k in ks ensures Frequency(index, k, id) == Tf(words, k) {
      assert k in Elements(ks);
    }
    FrequenciesSumToOne(index, id, ks, words);
  }
}
