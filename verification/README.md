# search-server in Dafny

A model of the search server's core: the TF-IDF document index and query
engine of `search-server/main.cpp` (`SearchServer`), the result paginator of
`search-server/paginator.h` and the request history of
`search-server/request_queue.h` / `request_queue.cpp`.

The server stores documents under non-negative integer ids. For each
document it keeps an average rating and a status. An inverted index maps
every non-stop word to the documents that contain it, together with its
term frequency there. A query is split into words. Words that start with
`-` are minus words, stop words are dropped, and a malformed word makes the
query fail with `invalid_argument`. A document is a result when:

- it contains a plus word;
- it passes the caller's predicate (a status, by default `ACTUAL`);
- it contains no minus word.

Its relevance is the sum of tf × idf over the plus words. Results are sorted
by relevance, with near-ties (within `1e-6`) broken by rating, and cut to
five. `MatchDocument` lists the query's plus words that a document holds,
or none when it holds a minus word. `GetDocumentId` returns the id at a
given position in ascending id order.

The files:

- `wrappers.dfy`: the error kinds `invalid_argument` and `out_of_range`, and `Result` and `Outcome` for the code paths that throw.
- `lexicographic.dfy`: `std::string`'s `<`. A `std::set<std::string>` is a strictly sorted sequence.
- `tokenizer.dfy`: `SplitIntoWords`, `IsValidWord` and `MakeUniqueNonEmptyStrings`.
- `documents.dfy`: `Document`, `DocumentStatus`, `DocumentData`, and C++ integer division, which truncates toward zero. It also holds `ComputeAverageRating`.
- `query_parser.dfy`: `ParseQueryWord` and `ParseQuery`, as functions on values.
- `inverted_index.dfy`: `word_to_document_freqs_` as a map, the postings one `AddDocument` adds, and the invariant the server keeps.
- `ranking.dfy`: idf, relevance, the documents `FindAllDocuments` reports, the comparator, the sort (functional and in place on an array), the cut to five, and the meaning of `FindTopDocuments`.
- `server.dfy`: the `SearchServer` class. Its methods follow the C++ loops, and each is proved equal to the functions above. The file also holds the meaning of `MatchDocument` and the `GetDocumentId` finding.
- `pagination.dfy`: `DivUp`, `IteratorRange`, the `Paginator` constructor and `Paginate`. Iterators are positions in a sequence.
- `request_queue.dfy`: `RequestQueue`. This is the window of the last 1440 outcomes, with a ghost history of every recorded outcome, and the count of empty results.

Three behaviours of the code worth noting:

- A word with a control character raises `invalid_argument` in the code (`IsValidWord`, main.cpp:84-90), not a separate format error.
- `MatchDocument` with an empty query does not fail. It parses to an empty query and returns no words, because only `FindTopDocuments` tests for an empty query (main.cpp:120-121).
- `MatchDocument` with an unknown id fails with `out_of_range` (`documents_.at`, main.cpp:184), but only after the query has parsed.

## Model

| member | source | states |
|---|---|---|
| Tokenizer.IsValidWord | search-server/main.cpp:84-90 | a word is valid exactly when none of its characters has code 0 to 31 |
| Tokenizer.FragmentsJoin | search-server/main.cpp:31-50 | the pieces between single spaces, joined again with spaces, give back the text (the reference the splitter is specified against loses nothing) |
| Tokenizer.Words | search-server/main.cpp:31-50 | every word is non-empty and holds no space |
| Tokenizer.SplitIntoWords | search-server/main.cpp:31-50 | the loop's words are exactly the non-empty pieces between spaces, in order |
| Tokenizer.MakeUniqueNonEmptyStrings | search-server/main.cpp:66-75 | the set holds exactly the non-empty input strings |
| Lexicographic.Insert | search-server/main.cpp:270-279 | over `Less`, the model of `std::string` `<`: inserting into a `std::set<string>` keeps it strictly sorted, adds exactly the word, and grows it by one unless the word was there |
| Lexicographic.FilterSorted | search-server/main.cpp:160-170 | keeping some words of a strictly sorted sequence leaves it strictly sorted, holding exactly the kept words |
| Lexicographic.KeepSnoc | search-server/main.cpp:160-170 | filtering one more word appends it exactly when it is kept |
| Documents.TruncDiv | search-server/main.cpp:230 | C++ `/`: the quotient is rounded toward zero, and `abs(q*b) <= abs(a) < abs(q*b) + abs(b)` with the sign of `a` |
| Documents.TruncRem | search-server/paginator.h:48 | C++ `%`: `q*b + r == a` and `abs(r) < abs(b)` |
| Documents.ComputeAverageRating | search-server/main.cpp:225-231 | 0 for no ratings; otherwise the sum divided by the count, rounded toward zero |
| QueryParser.ParseQueryWord | search-server/main.cpp:239-258 | fails with `invalid_argument` exactly on the empty word, a control character, a bare `-` or a leading `--`; otherwise strips one `-` into `isMinus`, and `isStop` is stop-word membership |
| QueryParser.AddWord | search-server/main.cpp:270-279 | adding a query word keeps both word sets strictly sorted |
| QueryParser.ParseWords | search-server/main.cpp:265-282 | a parsed query's word sets are strictly sorted; a failure is `invalid_argument` |
| QueryParser.ParseWordsFails | search-server/main.cpp:265-282 | the query fails exactly when one of its words fails |
| QueryParser.ParseWordsSets | search-server/main.cpp:265-282 | the plus and minus sets are exactly the non-stop plus words and the non-stop minus words without their `-`; neither holds a stop word |
| InvertedIndex.AddPostings | search-server/main.cpp:108-113 | the new index's words are the old ones plus the document's; other documents' postings are unchanged; each document word gets the new id with term frequency count/size; for a fresh id, the id is posted under exactly the document's words |
| InvertedIndex.FrequenciesSumToOne | search-server/main.cpp:109-112 | one document's term frequencies, over its distinct words, sum to 1 |
| InvertedIndex.AddedFrequenciesSumToOne | search-server/main.cpp:109-112 | after an addition, the new document's term frequencies in the index sum to 1 |
| InvertedIndex.AddKeepsConsistent | search-server/main.cpp:101-115 | adding a fresh, non-negative id with non-stop words keeps the index and documents consistent |
| InvertedIndex.StoredFrequenciesSumToOne | search-server/main.cpp:206-208 | in a consistent server, every non-empty stored document's term frequencies sum to 1 |
| Ranking.RelevanceWithoutPosting | search-server/main.cpp:293-303 | a document with no plus word posting accrues relevance 0 |
| Ranking.UnindexedWord | search-server/main.cpp:294-296 | a plus word the index lacks changes neither which documents match nor any relevance |
| Ranking.Ascending | search-server/main.cpp:316 | the listing of a `std::map`'s keys has one entry per key, each a key |
| Ranking.AscendingSorted | search-server/main.cpp:316-319 | the listing is strictly increasing and holds exactly the keys |
| Ranking.AscendingRank | search-server/main.cpp:191-193 | the key at position `i` is the one with exactly `i` smaller keys |
| Ranking.FindAllOrderAndFields | search-server/main.cpp:289-321 | results are in strictly ascending id order, each with its stored rating and the sum of tf × idf over the plus words |
| Ranking.FindAllReports | search-server/main.cpp:289-321 | `FindAll`, the model of `FindAllDocuments`: a document is listed exactly when it is stored, passes the predicate, holds a plus word and holds no minus word |
| Ranking.MinusWordVetoes | search-server/main.cpp:306-313 | a document holding a minus word is never listed, whatever the predicate |
| Ranking.BeforeAsymmetric | search-server/main.cpp:127-132 | `Before`, the model of the sort's comparison lambda: the comparator never puts two documents each before the other |
| Ranking.SortDocuments | search-server/main.cpp:126-132 | the in-place array sort leaves the array as the reference ranking of its old contents |
| Ranking.SortAndResize | search-server/main.cpp:126-135 | sorting the matches in an array and cutting to five gives the first five of the reference ranking |
| Ranking.InsertLast | search-server/main.cpp:126-132 | one pass of the in-place sort inserts element `i` into the sorted prefix and leaves the rest as it was |
| Ranking.InsertRankedPermutes | search-server/main.cpp:126-132 | inserting into the ranking adds exactly the new document |
| Ranking.InsertRankedOrdered | search-server/main.cpp:126-132 | inserting keeps neighbours in order |
| Ranking.RankPermutes | search-server/main.cpp:126-132 | the ranking is a permutation of its input |
| Ranking.RankIsOrdered | search-server/main.cpp:126-132 | no two neighbours of the ranking are out of order by the comparator |
| Ranking.RankOrderedMeaning | search-server/main.cpp:127-132 | neighbours with relevances within `1e-6` are in non-increasing rating; otherwise the first's relevance is higher by at least `1e-6` |
| Ranking.Truncate | search-server/main.cpp:133-135 | `resize(5)`: the first `min(5, size)` results |
| Ranking.TopOfRanking | search-server/main.cpp:126-136 | the sorted and cut results are as many as there are, up to five, drawn from the input, and in order |
| Ranking.FindTopMeaning | search-server/main.cpp:118-137 | `FindTop`, the model of `FindTopDocuments`: it fails with `invalid_argument` exactly on an empty or malformed query; otherwise it returns up to five of the reported documents, in order |
| Server.NoStopWordsMeaning | search-server/main.cpp:214-223 | `NoStopWords`, the model of `SplitIntoWordsNoStop` on the split words: the filter fails (always with `invalid_argument`) exactly when a non-stop word is invalid; otherwise it keeps every non-stop word as often as it occurs and no stop word |
| Server.NoStopWordsExcludesStopWords | search-server/main.cpp:214-223 | no stop word survives the filter |
| Server.VetoedByPosting | search-server/main.cpp:171-183 | the minus word loop clears the list exactly when the document holds a minus word |
| Server.KeptWords | search-server/main.cpp:160-170 | the plus words kept are, in lexicographic order, the ones the document holds |
| Server.MatchDocumentMeaning | search-server/main.cpp:156-186 | `Match`, the model of `MatchDocument`: a malformed query is `invalid_argument`; a well-formed query fails with `out_of_range` exactly when the id is unknown, and succeeds otherwise; on success the stored status and the query's plus words the document holds, in order, or none if it holds a minus word |
| Server.GetDocumentIdPastTheEnd | search-server/main.cpp:187-196 | the range test as written admits `index == count`, yet every stored id has fewer than `count` smaller ids, so no id is at that position |
| Server.SearchServer.FromStopWords | search-server/main.cpp:95-96 | fails with `invalid_argument` exactly when some stop word has a control character; otherwise an empty server whose stop words are the non-empty given words |
| Server.SearchServer.FromStopWordsText | search-server/main.cpp:98 | the same for the words of a stop-word text |
| Server.SearchServer.SplitIntoWordsNoStop | search-server/main.cpp:214-223 | the loop computes the non-stop word filter of the text's words |
| Server.SearchServer.DropStopWords | search-server/main.cpp:216-221 | the loop over the split words computes the stop word filter, stopping at the first invalid word |
| Server.SearchServer.AddDocument | search-server/main.cpp:101-115 | fails with `invalid_argument` and changes nothing exactly on a negative id, a known id or an invalid word; otherwise stores the average rating and status, adds the postings and keeps the server consistent |
| Server.SearchServer.IndexWords | search-server/main.cpp:109-113 | the `+= inv_word_count` loop builds exactly the postings of the addition |
| Server.SearchServer.ParseQuery | search-server/main.cpp:265-282 | the loop computes the parsed query |
| Server.SearchServer.ComputeWordInverseDocumentFreq | search-server/main.cpp:285-287 | idf is `ln(count / postings)` with a non-empty posting list |
| Server.SearchServer.DocumentFrequencyBounded | search-server/main.cpp:285-287 | an indexed word has between 1 and `count` postings, so the ratio inside `log` is at least 1 |
| Server.SearchServer.AddWordRelevance | search-server/main.cpp:297-303 | one plus word's loop adds its tf × idf to every accepted document holding it |
| Server.SearchServer.PlusWordsRelevance | search-server/main.cpp:293-304 | the relevance map holds exactly the accepted documents with a plus word posting, each with its full relevance |
| Server.SearchServer.AddPlusWord | search-server/main.cpp:293-303 | one turn of the plus word loop extends the relevance map to one more word |
| Server.SearchServer.EraseMinusWords | search-server/main.cpp:306-313 | the entries left are exactly those without a minus word posting, with unchanged values |
| Server.SearchServer.CollectDocuments | search-server/main.cpp:315-320 | the results list the map's ids in ascending order with relevance and rating |
| Server.SearchServer.FindAllDocuments | search-server/main.cpp:289-321 | the method returns the reported documents |
| Server.SearchServer.FindTopDocuments | search-server/main.cpp:117-137 | the method, with its in-place sort, returns the sorted and cut reported documents or the query's error |
| Server.SearchServer.FindTopDocumentsByStatus | search-server/main.cpp:139-144 | the top documents with the given status |
| Server.SearchServer.FindTopDocumentsActual | search-server/main.cpp:146-149 | the top `ACTUAL` documents |
| Server.SearchServer.MatchDocument | search-server/main.cpp:156-186 | the two loops compute the matched words and status, or the error |
| Server.SearchServer.HeldWords | search-server/main.cpp:160-170 | the plus word loop keeps, in order, the words with a posting for the id |
| Server.SearchServer.HoldsAnyWord | search-server/main.cpp:171-183 | the minus word loop finds a word exactly when some minus word has a posting for the id |
| Server.SearchServer.GetDocumentId | search-server/main.cpp:187-196 | with the half-open range: `out_of_range` outside `[0, count)`, else the id with exactly `index` smaller ids |
| Server.SearchServer.GetDocumentCount | search-server/main.cpp:151-154 | the number of stored documents |
| Pagination.DivUpIsCeiling | search-server/paginator.h:46-49 | about `DivUp`, the model of `DivUp` there: for `x >= 0` and `y > 0`, `DivUp(x, y)` is the least `n` with `x <= n*y` |
| Pagination.EmptyRangeNoPages | search-server/paginator.h:57-58 | an empty range has no page, a non-empty one at least one |
| Pagination.PageSizes | search-server/paginator.h:57-70 | each page's size is its length; all pages but the last hold `page_size`; the last holds 1 to `page_size`; all lie inside the range |
| Pagination.PagesContiguous | search-server/paginator.h:58-70 | each page starts where the previous one ends |
| Pagination.PagesCover | search-server/paginator.h:58-70 | the pages, read in order, are exactly the range |
| Pagination.Paginator.constructor | search-server/paginator.h:55-71 | the loop builds `DivUp(end - begin, page_size)` pages laid out as above |
| Pagination.Paginate | search-server/paginator.h:86-89 | the paginator over the whole container |
| Requests.RequestQueue.constructor | search-server/request_queue.cpp:4 | holds the given server and starts with an empty window and no recorded outcomes |
| Requests.RecordIsFifo | search-server/request_queue.h:20-26 | `Record`, the model of the push/pop of the window: below 1440 the window grows by one, at 1440 it keeps its size; the new entry is at the back and the others keep their order, only the oldest leaving |
| Requests.RecordKeepsLast | search-server/request_queue.h:20-26 | recording every request keeps exactly the last 1440 of all requests |
| Requests.CountNoResultCounts | search-server/request_queue.cpp:20-23 | `CountNoResult`, the model of the `count_if`: the count is the number of window positions with no result, at most the window size |
| Requests.RequestQueue.AddFindRequest | search-server/request_queue.h:13-29 | returns the server's `FindTopDocuments` answer; a failure records nothing; otherwise records the outcome (`is_no_result` iff empty), and the window stays the last 1440 outcomes |
| Requests.RequestQueue.AddFindRequestByStatus | search-server/request_queue.cpp:5-11 | returns the server's answer for the status; keeps `Valid()`, and what the call records is left unspecified |
| Requests.RequestQueue.AddFindRequestActual | search-server/request_queue.cpp:12-19 | returns the server's answer for `ACTUAL`; keeps `Valid()`, and what the call records is left unspecified |
| Requests.RequestQueue.GetNoResultRequests | search-server/request_queue.cpp:20-23 | the number of window entries that found nothing, at most the window size; reading it changes nothing |

## Left out

- Console I/O and the demonstration code: `ReadLine`, `ReadLineWithNumber`, `PrintDocument`, `main` and both `operator<<` overloads of paginator.h. These only print.
- Floating point. Relevance and term frequencies are exact reals. `log` is a function `ln: real -> real` fixed when the server is created. Rounding and the `1.0 / 0` of a document whose words are all stop words are not modelled; that division is never used, because the loop has no word to add.
- Server.SearchServer.AddWordRelevance: the C++ inner loop visits postings in ascending id order, and the model visits them in any order. Each posting of one word adds to a different document's entry, so for a predicate without side effects the order changes no sum. The order across plus words, which would matter under rounding, is kept: sorted, as the query's set holds them.
- Ranking.SortDocuments: `std::sort` with the 1e-6 tolerance comparator, which is not a strict weak ordering, has no defined order for such inputs. The model sorts by stable insertion with the same comparator, so it proves only that neighbours are in order and that the result is a permutation.
- `int` overflow: ratings, their sum and ids are unbounded integers, so the overflow of `accumulate` (main.cpp:229) is not modelled.
- Server.SearchServer.ComputeWordInverseDocumentFreq: it requires the word to be indexed, where the C++ `at` would throw. Its only caller tests this first.
- `page_size == 0` divides by zero in `DivUp`. The paginator requires a positive page size.
- Iterators: pages are integer positions. The step `begin += page_size` past `end` on the last page (paginator.h:68) is never dereferenced and is not modelled. `begin()`, `end()` and `size()` of `IteratorRange` are the fields of a datatype.
- `function_for_AddFindRequest` is not part of this model. It is called at request_queue.cpp:9 and 16, but its definition is not available.
- Requests.RequestQueue.AddFindRequestByStatus: states the returned result and that the window stays valid; what the call records in the window is left unspecified, because the recording helper is not modelled.
- Requests.RequestQueue.AddFindRequestActual: states the returned result and that the window stays valid; what the call records in the window is left unspecified, for the same reason.
- `QueryResult::query_result_stat`, `query_result` and `QueryResult::empty()`: the code never uses them.
- The `SearchServer` reference held by `RequestQueue` is a field; the server's lifetime is not modelled.
- search-server/document.h is not part of this model beyond its two types, which duplicate main.cpp:52-82.
- `std::string` holds bytes and the model holds `char` code points. For UTF-8 text this changes nothing here: `std::string` compares bytes as unsigned, which orders UTF-8 the same as code points, and the tests for ' ' and for the characters below it agree, since every byte of a multi-byte character is at least 0x80 (negative as a signed `char`, so never rejected).
- Template parameters: the document predicate is a function value, and containers are sequences.

## Findings

| source | as written | input that shows it | evidently intended | confidence | as-written member | corrected member |
|---|---|---|---|---|---|---|
| search-server/main.cpp:189 | `index >= 0 and index <= GetDocumentCount()` lets `index == count` through, and `advance` then reaches `documents_.end()`, which is dereferenced | any server and `index == GetDocumentCount()`, e.g. an empty server and `GetDocumentId(0)` | `index < GetDocumentCount()`, so that the call throws `out_of_range` | not executed | Server.GetDocumentIdPastTheEnd | Server.SearchServer.GetDocumentId |
