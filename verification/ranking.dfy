/** Relevance, filtering and ordering of search results (search-server/main.cpp,
    `ComputeWordInverseDocumentFreq`, `FindAllDocuments`, `FindTopDocuments`),
    stated on values. The natural logarithm is not available to the model:
    it is the parameter `ln`, and relevances are exact reals. */
module Ranking {
  import opened Wrappers
  import opened Documents
  import opened InvertedIndex
  import opened QueryParser
  import Tokenizer

  /** `MAX_RESULT_DOCUMENT_COUNT`. */
  const MaxResultDocumentCount: nat := 5

  /** `ALMOST_ZERO`: relevances closer than this are treated as equal. */
  const AlmostZero: real := 0.000001

  /** The caller's filter, called with (id, status, rating). */
  type DocumentPredicate = (int, DocumentStatus, int) -> bool

  /** `ComputeWordInverseDocumentFreq`: log of the document count over the
      number of documents containing the word. */
  function Idf(ln: real -> real, documentCount: nat, containing: nat): real
    requires containing > 0
  {
    ln(documentCount as real / containing as real)
  }

  /** What plus word `w` adds to the relevance of document `id`:
      tf times idf when the document contains `w`, nothing otherwise. */
  function Contribution(index: Index, documentCount: nat, ln: real -> real, w: string, id: int): real
  {
    if w in index && id in index[w] then index[w][id] * Idf(ln, documentCount, |index[w]|) else 0.0
  }

  /** The relevance of document `id` for the plus words `words`. */
  function Relevance(index: Index, documentCount: nat, ln: real -> real, words: seq<string>, id: int): real
  {
    if words == [] then 0.0
    else
      Relevance(index, documentCount, ln, words[..|words| - 1], id)
      + Contribution(index, documentCount, ln, words[|words| - 1], id)
  }

  /** One more plus word adds its contribution to the relevance. */
  lemma RelevanceSnoc(index: Index, documentCount: nat, ln: real -> real, words: seq<string>,
                      w: string, id: int)
    ensures Relevance(index, documentCount, ln, words + [w], id)
         == Relevance(index, documentCount, ln, words, id) + Contribution(index, documentCount, ln, w, id)
  {
    assert (words + [w])[..|words|] == words;
  }

  /** A document holding none of the plus words has relevance 0. */
  lemma {:induction false} RelevanceWithoutPosting(index: Index, documentCount: nat, ln: real -> real,
                                                   words: seq<string>, id: int)
    requires !HasPosting(index, words, id)
    ensures Relevance(index, documentCount, ln, words, id) == 0.0
  {
    if words != [] {
      var init := words[..|words| - 1];
      assert !HasPosting(index, init, id) by {
        forall j | 0 <= j < |init| ensures !(init[j] in index && id in index[init[j]]) {
          assert init[j] == words[j];
        }
      }
      RelevanceWithoutPosting(index, documentCount, ln, init, id);
      assert !(words[|words| - 1] in index && id in index[words[|words| - 1]]);
    }
  }

  /** A plus word missing from the index changes neither which documents
      hold a plus word nor any relevance. */
  lemma UnindexedWord(index: Index, documentCount: nat, ln: real -> real, words: seq<string>, w: string)
    requires w !in index
    ensures forall id :: HasPosting(index, words + [w], id) <==> HasPosting(index, words, id)
    ensures forall id :: Relevance(index, documentCount, ln, words + [w], id) == Relevance(index, documentCount, ln, words, id)
  {
    forall id ensures HasPosting(index, words + [w], id) <==> HasPosting(index, words, id) {
      HasPostingSnoc(index, words, w, id);
    }
    forall id ensures Relevance(index, documentCount, ln, words + [w], id) == Relevance(index, documentCount, ln, words, id) {
      RelevanceSnoc(index, documentCount, ln, words, w, id);
    }
  }

  lemma HasPostingSnoc(index: Index, words: seq<string>, w: string, id: int)
    ensures HasPosting(index, words + [w], id) <==> HasPosting(index, words, id) || (w in index && id in index[w])
  {
    var s := words + [w];
    if HasPosting(index, words, id) {
      var j :| 0 <= j < |words| && words[j] in index && id in index[words[j]];
      assert s[j] == words[j];
    }
    if w in index && id in index[w] {
      assert s[|words|] == w;
    }
    if HasPosting(index, s, id) {
      var j :| 0 <= j < |s| && s[j] in index && id in index[s[j]];
      if j < |words| {
        assert s[j] == words[j];
      }
    }
  }

  /** The state of the loop of `FindAllDocuments` over the postings of
      plus word `word`, after the relevances for `words`: the postings left
      in `todo` are still to be added. */
  ghost predicate RelevanceInWord(index: Index, documents: map<int, DocumentData>, ln: real -> real,
                                  pred: DocumentPredicate, words: seq<string>, word: string,
                                  todo: set<int>, r: map<int, real>)
    requires word in index
  {
    && (forall id :: id in r <==>
          id in documents && Accepts(pred, documents, id)
          && (HasPosting(index, words, id) || (id in index[word] && id !in todo)))
    && (forall id :: id in r ==>
          r[id] == Relevance(index, |documents|, ln, words, id)
                   + (if id in index[word] && id !in todo then Contribution(index, |documents|, ln, word, id) else 0.0))
  }

  lemma RelevanceInWordStart(index: Index, documents: map<int, DocumentData>, ln: real -> real,
                             pred: DocumentPredicate, words: seq<string>, word: string, r: map<int, real>)
    requires word in index
    requires forall id :: id in r <==>
      id in documents && Accepts(pred, documents, id) && HasPosting(index, words, id)
    requires forall id :: id in r ==> r[id] == Relevance(index, |documents|, ln, words, id)
    ensures RelevanceInWord(index, documents, ln, pred, words, word, index[word].Keys, r)
  {
  }

  /** One posting of the loop: a document passing the predicate gets the
      word's contribution added to its relevance (from 0 when it had
      none). */
  lemma RelevanceInWordStep(index: Index, documents: map<int, DocumentData>, ln: real -> real,
                            pred: DocumentPredicate, words: seq<string>, word: string,
                            todo: set<int>, r: map<int, real>, id: int, accepted: bool, next: map<int, real>)
    requires word in index && id in todo && todo <= index[word].Keys && id in documents
    requires RelevanceInWord(index, documents, ln, pred, words, word, todo, r)
    requires accepted == Accepts(pred, documents, id)
    requires next == if accepted
                     then r[id := (if id in r then r[id] else 0.0) + Contribution(index, |documents|, ln, word, id)]
                     else r
    ensures RelevanceInWord(index, documents, ln, pred, words, word, todo - {id}, next)
  {
    if accepted && id !in r {
      RelevanceWithoutPosting(index, |documents|, ln, words, id);
    }
  }

  /** Relevances for `words`, each with the contribution of `word` added
      wherever `word` has a posting, are the relevances for `words + [word]`. */
  lemma RelevanceOfNextWord(index: Index, documents: map<int, DocumentData>, ln: real -> real,
                            pred: DocumentPredicate, words: seq<string>, word: string, r: map<int, real>)
    requires word in index
    requires RelevanceInWord(index, documents, ln, pred, words, word, {}, r)
    ensures forall id :: id in r <==>
      id in documents && Accepts(pred, documents, id) && HasPosting(index, words + [word], id)
    ensures forall id :: id in r ==> r[id] == Relevance(index, |documents|, ln, words + [word], id)
  {
    forall id ensures HasPosting(index, words + [word], id) <==> HasPosting(index, words, id) || id in index[word] {
      HasPostingSnoc(index, words, word, id);
    }
    forall id | id in r ensures r[id] == Relevance(index, |documents|, ln, words + [word], id) {
      RelevanceSnoc(index, |documents|, ln, words, word, id);
    }
  }

  /** Some word of `words` has a posting for `id`. */
  ghost predicate HasPosting(index: Index, words: seq<string>, id: int)
  {
    exists j :: 0 <= j < |words| && words[j] in index && id in index[words[j]]
  }

  /** The caller's predicate applied to the stored record of `id`. */
  function Accepts(pred: DocumentPredicate, documents: map<int, DocumentData>, id: int): bool
    requires id in documents
  {
    pred(id, documents[id].status, documents[id].rating)
  }

  /** A document `FindAllDocuments` reports: it contains a plus word and
      passes the predicate, and contains no minus word (whatever the
      predicate says of it). */
  ghost predicate Reported(index: Index, documents: map<int, DocumentData>, query: Query,
                           pred: DocumentPredicate, id: int)
  {
    && id in documents
    && Accepts(pred, documents, id)
    && HasPosting(index, query.plusWords, id)
    && !HasPosting(index, query.minusWords, id)
  }

  ghost function Matches(index: Index, documents: map<int, DocumentData>, query: Query,
                         pred: DocumentPredicate): set<int>
  {
    set id | id in documents && Reported(index, documents, query, pred, id)
  }

  /** There is a smallest element in every non-empty finite set. */
  lemma {:induction false} MinExists(s: set<int>)
    requires s != {}
    ensures exists m :: m in s && forall x :: x in s ==> m <= x
  {
    if !exists y :: y in s {
      assert false;
    }
    var y :| y in s;
    if s != {y} {
      MinExists(s - {y});
      var m :| m in s - {y} && forall x :: x in s - {y} ==> m <= x;
      var least := if y < m then y else m;
      forall x | x in s ensures least <= x {
        if x != y { assert x in s - {y}; }
      }
    } else {
      assert forall x :: x in s ==> y <= x;
    }
  }

  /** The elements of `s` in ascending order, as a `std::map<int, …>`
      iterates them. */
  ghost function Ascending(s: set<int>): (r: seq<int>)
    ensures |r| == |s|
    ensures forall k :: 0 <= k < |r| ==> r[k] in s
    decreases |s|
  {
    if s == {} then []
    else
      MinExists(s);
      var m :| m in s && forall x :: x in s ==> m <= x;
      var rest := Ascending(s - {m});
      assert forall k :: 0 <= k < |rest| ==> rest[k] in s;
      [m] + rest
  }

  /** Unfolding `Ascending` at the smallest element. */
  lemma AscendingCons(s: set<int>, m: int)
    requires m in s && forall x :: x in s ==> m <= x
    ensures Ascending(s) == [m] + Ascending(s - {m})
  {
    assert forall y :: y in s && (forall x :: x in s ==> y <= x) ==> y == m;
  }

  /** Taking the smallest remaining element moves it from the ascending
      rest of a set to the prefix already visited. */
  lemma AscendingStep(all: set<int>, remaining: set<int>, done: seq<int>, m: int)
    requires done + Ascending(remaining) == Ascending(all)
    requires m in remaining && forall x :: x in remaining ==> m <= x
    ensures (done + [m]) + Ascending(remaining - {m}) == Ascending(all)
  {
    AscendingCons(remaining, m);
    assert done + ([m] + Ascending(remaining - {m})) == (done + [m]) + Ascending(remaining - {m});
  }

  /** A smaller element in front of an increasing sequence keeps it
      increasing. */
  lemma IncreasingCons(m: int, rest: seq<int>)
    requires forall i, j :: 0 <= i < j < |rest| ==> rest[i] < rest[j]
    requires forall k :: 0 <= k < |rest| ==> m < rest[k]
    ensures forall i, j :: 0 <= i < j < |[m] + rest| ==> ([m] + rest)[i] < ([m] + rest)[j]
  {
    var r := [m] + rest;
    forall i, j | 0 <= i < j < |r| ensures r[i] < r[j] {
      if i > 0 {
        assert r[i] == rest[i - 1] && r[j] == rest[j - 1];
      } else {
        assert r[j] == rest[j - 1];
      }
    }
  }

  /** `Ascending` lists every element of `s` once, in increasing order. */
  lemma {:induction false} AscendingSorted(s: set<int>)
    ensures forall i, j :: 0 <= i < j < |Ascending(s)| ==> Ascending(s)[i] < Ascending(s)[j]
    ensures forall x :: x in Ascending(s) <==> x in s
    ensures |Ascending(s)| == |s|
    decreases |s|
  {
    if s != {} {
      MinExists(s);
      var m :| m in s && forall x :: x in s ==> m <= x;
      AscendingCons(s, m);
      var smaller := s - {m};
      AscendingSorted(smaller);
      var rest := Ascending(smaller);
      assert forall k :: 0 <= k < |rest| ==> m < rest[k] by {
        forall k | 0 <= k < |rest| ensures m < rest[k] {
          assert rest[k] in smaller;
        }
      }
      IncreasingCons(m, rest);
      assert forall x :: x in [m] + rest <==> x == m || x in rest;
    }
  }

  /** The elements of `s` below `x`. */
  ghost function Below(s: set<int>, x: int): set<int>
  {
    set k | k in s && k < x
  }

  /** Removing the least element `m < x` removes one element below `x`. */
  lemma BelowWithoutLeast(s: set<int>, m: int, x: int)
    requires m in s && m < x
    ensures Below(s, x) == Below(s - {m}, x) + {m}
  {
  }

  /** The element at position `i` of `Ascending(s)` is the one with
      exactly `i` smaller elements in `s`. */
  lemma {:induction false} AscendingRank(s: set<int>, i: nat)
    requires i < |s|
    ensures Ascending(s)[i] in s
    ensures |Below(s, Ascending(s)[i])| == i
    decreases |s|
  {
    MinExists(s);
    var m :| m in s && forall x :: x in s ==> m <= x;
    AscendingCons(s, m);
    if i == 0 {
      assert Below(s, m) == {};
    } else {
      var smaller := s - {m};
      AscendingRank(smaller, i - 1);
      var e := Ascending(smaller)[i - 1];
      BelowWithoutLeast(s, m, e);
    }
  }

  /** The result entry for document `id`: relevance and stored rating. */
  ghost function ToDocument(index: Index, documents: map<int, DocumentData>, ln: real -> real,
                            plusWords: seq<string>, id: int): Document
    requires id in documents
  {
    Document(id, Relevance(index, |documents|, ln, plusWords, id), documents[id].rating)
  }

  /** `FindAllDocuments`: one result per reported document, in ascending id
      order, with its relevance and its stored rating. */
  ghost function FindAll(index: Index, documents: map<int, DocumentData>, ln: real -> real,
                         query: Query, pred: DocumentPredicate): seq<Document>
  {
    var matches := Matches(index, documents, query, pred);
    var ids := Ascending(matches);
    AscendingSorted(matches);
    assert forall k :: 0 <= k < |ids| ==> ids[k] in matches;
    ResultsFor(index, documents, ln, query.plusWords, ids)
  }

  /** `FindAllDocuments` lists the reported documents in ascending id order,
      each with its stored rating and its relevance. */
  lemma FindAllOrderAndFields(index: Index, documents: map<int, DocumentData>, ln: real -> real,
                              query: Query, pred: DocumentPredicate)
    ensures var r := FindAll(index, documents, ln, query, pred);
      && (forall i, j :: 0 <= i < j < |r| ==> r[i].id < r[j].id)
      && (forall k :: 0 <= k < |r| ==>
            && r[k].id in documents
            && r[k].rating == documents[r[k].id].rating
            && r[k].relevance == Relevance(index, |documents|, ln, query.plusWords, r[k].id))
  {
    var matches := Matches(index, documents, query, pred);
    var ids := Ascending(matches);
    AscendingSorted(matches);
    assert forall k :: 0 <= k < |ids| ==> ids[k] in matches;
  }

  /** A document is listed by `FindAllDocuments` exactly when it is
      reported: it contains a plus word, passes the predicate and contains
      no minus word. */
  lemma FindAllReports(index: Index, documents: map<int, DocumentData>, ln: real -> real,
                       query: Query, pred: DocumentPredicate, id: int)
    ensures var r := FindAll(index, documents, ln, query, pred);
      (exists k :: 0 <= k < |r| && r[k].id == id) <==> Reported(index, documents, query, pred, id)
  {
    var matches := Matches(index, documents, query, pred);
    var ids := Ascending(matches);
    AscendingSorted(matches);
    assert forall k :: 0 <= k < |ids| ==> ids[k] in matches;
    var r := FindAll(index, documents, ln, query, pred);
    assert r == ResultsFor(index, documents, ln, query.plusWords, ids);
    assert |r| == |ids|;
    assert forall k :: 0 <= k < |r| ==> r[k].id == ids[k];
    if Reported(index, documents, query, pred, id) {
      assert id in matches;
      var k :| 0 <= k < |ids| && ids[k] == id;
      assert r[k].id == id;
    }
  }

  /** A minus word vetoes a document whatever the predicate: a document
      with a posting for a minus word is never listed. */
  lemma MinusWordVetoes(index: Index, documents: map<int, DocumentData>, ln: real -> real,
                        query: Query, pred: DocumentPredicate, id: int)
    requires HasPosting(index, query.minusWords, id)
    ensures forall d :: d in FindAll(index, documents, ln, query, pred) ==> d.id != id
  {
    var r := FindAll(index, documents, ln, query, pred);
    forall d | d in r ensures d.id != id {
      var k :| 0 <= k < |r| && r[k] == d;
      FindAllReports(index, documents, ln, query, pred, d.id);
    }
  }

  /** One result per id of `ids`, in the same order. */
  ghost function ResultsFor(index: Index, documents: map<int, DocumentData>, ln: real -> real,
                            plusWords: seq<string>, ids: seq<int>): seq<Document>
    requires forall k :: 0 <= k < |ids| ==> ids[k] in documents
  {
    seq(|ids|, k requires 0 <= k < |ids| => ToDocument(index, documents, ln, plusWords, ids[k]))
  }

  /** `ResultsFor` of one more id. */
  lemma ResultsForSnoc(index: Index, documents: map<int, DocumentData>, ln: real -> real,
                       plusWords: seq<string>, ids: seq<int>, id: int)
    requires id in documents && forall k :: 0 <= k < |ids| ==> ids[k] in documents
    ensures ResultsFor(index, documents, ln, plusWords, ids + [id])
         == ResultsFor(index, documents, ln, plusWords, ids) + [ToDocument(index, documents, ln, plusWords, id)]
  {
  }

  function RealAbs(x: real): real
  {
    if x < 0.0 then -x else x
  }

  /** The comparator of `FindTopDocuments`: `l` goes before `r` when its
      relevance is higher, or, relevances being within `AlmostZero`, when
      its rating is higher. It is not a strict weak ordering, because
      "within `AlmostZero`" is not transitive. */
  predicate Before(l: Document, r: Document)
  {
    if RealAbs(l.relevance - r.relevance) < AlmostZero then l.rating > r.rating
    else l.relevance > r.relevance
  }

  lemma BeforeAsymmetric(l: Document, r: Document)
    requires Before(l, r)
    ensures !Before(r, l)
  {
  }

  /** No neighbour pair is out of order under `Before`. */
  ghost predicate RankOrdered(s: seq<Document>)
  {
    forall i :: 0 <= i < |s| - 1 ==> !Before(s[i + 1], s[i])
  }

  /** Places `x` after a ranked prefix, moving it left past every element
      it goes before. */
  function InsertRanked(sorted: seq<Document>, x: Document): seq<Document>
  {
    if sorted == [] || !Before(x, sorted[|sorted| - 1]) then sorted + [x]
    else InsertRanked(sorted[..|sorted| - 1], x) + [sorted[|sorted| - 1]]
  }

  /** The sort of `FindTopDocuments` as an insertion sort. */
  function Rank(s: seq<Document>): seq<Document>
  {
    if s == [] then [] else InsertRanked(Rank(s[..|s| - 1]), s[|s| - 1])
  }

  /** The `std::sort` of `FindTopDocuments`, in place: an insertion sort
      that moves each document left past every document it goes before. */
  method SortDocuments(a: array<Document>)
    modifies a
    ensures a[..] == Rank(old(a[..]))
  {
    ghost var input := a[..];
    assert input[..0] == [];
    for i := 0 to a.Length
      invariant a[..i] == Rank(input[..i])
      invariant a[i..] == input[i..]
    {
      assert input[..i + 1] == input[..i] + [input[i]];
      InsertLast(a, i);
    }
    assert a[..] == a[..a.Length];
    assert input == input[..a.Length];
  }

  /** The tail of `FindTopDocuments`: sort the matches in place, then
      `resize` to at most `MaxResultDocumentCount`. */
  method SortAndResize(matched: seq<Document>) returns (top: seq<Document>)
    ensures top == Truncate(Rank(matched))
  {
    var ranked := new Document[|matched|](k requires 0 <= k < |matched| => matched[k]);
    assert ranked[..] == matched;
    SortDocuments(ranked);
    top := Truncate(ranked[..]);
  }

  /** One pass of the insertion sort: `a[i]` moves left into the ranked
      prefix `a[..i]`. */
  method InsertLast(a: array<Document>, i: nat)
    requires i < a.Length
    modifies a
    ensures a[..i + 1] == InsertRanked(old(a[..i]), old(a[i]))
    ensures a[i + 1..] == old(a[i + 1..])
  {
    ghost var sorted := a[..i];
    ghost var rest := a[i + 1..];
    var x := a[i];
    var j := i;
    while j > 0 && Before(x, a[j - 1])
      invariant 0 <= j <= i
      invariant a[..j] == sorted[..j]
      invariant a[j + 1..i + 1] == sorted[j..]
      invariant a[i + 1..] == rest
      invariant InsertRanked(sorted, x) == InsertRanked(sorted[..j], x) + sorted[j..]
    {
      InsertRankedShift(sorted, j, x);
      a[j] := a[j - 1];
      j := j - 1;
    }
    InsertRankedStop(sorted, j, x);
    a[j] := x;
    assert a[..i + 1] == sorted[..j] + [x] + sorted[j..];
  }

  /** Moving `x` left past `sorted[j - 1]`, which it goes before. */
  lemma InsertRankedShift(sorted: seq<Document>, j: nat, x: Document)
    requires 0 < j <= |sorted| && Before(x, sorted[j - 1])
    ensures InsertRanked(sorted[..j], x) + sorted[j..] == InsertRanked(sorted[..j - 1], x) + sorted[j - 1..]
  {
    assert sorted[..j][..j - 1] == sorted[..j - 1];
    assert sorted[j - 1..] == [sorted[j - 1]] + sorted[j..];
  }

  /** `x` stays where it is once it does not go before its left neighbour. */
  lemma InsertRankedStop(sorted: seq<Document>, j: nat, x: Document)
    requires j <= |sorted| && (j == 0 || !Before(x, sorted[j - 1]))
    ensures InsertRanked(sorted[..j], x) == sorted[..j] + [x]
  {
  }

  lemma {:induction false} InsertRankedPermutes(sorted: seq<Document>, x: Document)
    ensures multiset(InsertRanked(sorted, x)) == multiset(sorted) + multiset{x}
    ensures |InsertRanked(sorted, x)| == |sorted| + 1
  {
    if sorted != [] && Before(x, sorted[|sorted| - 1]) {
      var init := sorted[..|sorted| - 1];
      InsertRankedPermutes(init, x);
      assert sorted == init + [sorted[|sorted| - 1]];
    }
  }

  lemma {:induction false} InsertRankedOrdered(sorted: seq<Document>, x: Document)
    requires RankOrdered(sorted)
    ensures RankOrdered(InsertRanked(sorted, x))
    ensures InsertRanked(sorted, x)[|InsertRanked(sorted, x)| - 1] == x
         || (sorted != [] && InsertRanked(sorted, x)[|InsertRanked(sorted, x)| - 1] == sorted[|sorted| - 1])
  {
    InsertRankedPermutes(sorted, x);
    if sorted != [] && Before(x, sorted[|sorted| - 1]) {
      var init := sorted[..|sorted| - 1];
      var last := sorted[|sorted| - 1];
      InsertRankedOrdered(init, x);
      InsertRankedPermutes(init, x);
      var t := InsertRanked(init, x);
      var tl := t[|t| - 1];
      if tl == x {
        BeforeAsymmetric(x, last);
      } else {
        assert !Before(last, init[|init| - 1]);
      }
      assert !Before(last, tl);
    }
  }

  /** The sort permutes its input. */
  lemma {:induction false} RankPermutes(s: seq<Document>)
    ensures multiset(Rank(s)) == multiset(s)
    ensures |Rank(s)| == |s|
  {
    if s != [] {
      var init := s[..|s| - 1];
      RankPermutes(init);
      InsertRankedPermutes(Rank(init), s[|s| - 1]);
      assert s == init + [s[|s| - 1]];
    }
  }

  /** The sort leaves no neighbour pair out of order. */
  lemma {:induction false} RankIsOrdered(s: seq<Document>)
    ensures RankOrdered(Rank(s))
  {
    if s != [] {
      RankIsOrdered(s[..|s| - 1]);
      InsertRankedOrdered(Rank(s[..|s| - 1]), s[|s| - 1]);
    }
  }

  /** The truncation of `FindTopDocuments` to `MAX_RESULT_DOCUMENT_COUNT`. */
  function Truncate(s: seq<Document>): (r: seq<Document>)
    ensures |r| == if |s| > MaxResultDocumentCount then MaxResultDocumentCount else |s|
    ensures r == s[..|r|]
  {
    if |s| > MaxResultDocumentCount then s[..MaxResultDocumentCount] else s
  }

  /** `FindTopDocuments(raw_query, document_predicate)`. */
  ghost function FindTop(stopWords: set<string>, index: Index, documents: map<int, DocumentData>,
                         ln: real -> real, rawQuery: string, pred: DocumentPredicate): Result<seq<Document>>
  {
    if rawQuery == [] then Err(InvalidArgument)
    else
      match ParseQuerySpec(stopWords, rawQuery)
      case Err(e) => Err(e)
      case Ok(query) => Ok(Truncate(Rank(FindAll(index, documents, ln, query, pred))))
  }

  /** Neighbours that are not out of order: the first has the higher
      relevance by at least `AlmostZero`, or relevances within `AlmostZero`
      and a rating at least as high. */
  lemma {:induction false} RankOrderedMeaning(s: seq<Document>, i: nat)
    requires RankOrdered(s) && i + 1 < |s|
    ensures if RealAbs(s[i].relevance - s[i + 1].relevance) < AlmostZero
            then s[i].rating >= s[i + 1].rating
            else s[i].relevance >= s[i + 1].relevance + AlmostZero
  {
    assert !Before(s[i + 1], s[i]);
  }

  /** The sorted and truncated results: as many as there are, up to five,
      taken from the input, no neighbours out of order. */
  lemma TopOfRanking(all: seq<Document>)
    ensures |Truncate(Rank(all))| ==
      (if |all| > MaxResultDocumentCount then MaxResultDocumentCount else |all|)
    ensures multiset(Truncate(Rank(all))) <= multiset(all)
    ensures RankOrdered(Truncate(Rank(all)))
  {
    var ranked := Rank(all);
    RankPermutes(all);
    RankIsOrdered(all);
    var r := Truncate(ranked);
    assert ranked == r + ranked[|r|..];
    assert multiset(ranked) == multiset(r) + multiset(ranked[|r|..]);
  }

  /** What `FindTopDocuments` promises: an empty or malformed query is
      `invalid_argument`; otherwise at most five of the matching documents
      (as many as there are, up to five), no neighbours out of order. */
  lemma FindTopMeaning(stopWords: set<string>, index: Index, documents: map<int, DocumentData>,
                       ln: real -> real, rawQuery: string, pred: DocumentPredicate)
    ensures FindTop(stopWords, index, documents, ln, rawQuery, pred).Err? <==>
      rawQuery == [] || ParseQuerySpec(stopWords, rawQuery).Err?
    ensures FindTop(stopWords, index, documents, ln, rawQuery, pred).Err? ==>
      FindTop(stopWords, index, documents, ln, rawQuery, pred).error == InvalidArgument
    ensures FindTop(stopWords, index, documents, ln, rawQuery, pred).Ok? ==>
      var r := FindTop(stopWords, index, documents, ln, rawQuery, pred).value;
      var all := FindAll(index, documents, ln, ParseQuerySpec(stopWords, rawQuery).value, pred);
      && |r| == (if |all| > MaxResultDocumentCount then MaxResultDocumentCount else |all|)
      && multiset(r) <= multiset(all)
      && RankOrdered(r)
  {
    if rawQuery != [] && ParseQuerySpec(stopWords, rawQuery).Ok? {
      TopOfRanking(FindAll(index, documents, ln, ParseQuerySpec(stopWords, rawQuery).value, pred));
    }
  }
}
