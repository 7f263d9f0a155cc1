/** The request history of search-server/request_queue.h and
    request_queue.cpp: a window of the outcomes of the last `MinInDay`
    searches, and how many of them found nothing. */
module Requests {
  import opened Wrappers
  import opened Documents
  import opened Ranking
  import opened Server

  /** `min_in_day_`: the capacity of the window, one request per minute
      of a day. */
  const MinInDay := 1440

  /** `RequestQueue::QueryResult`: the documents a search returned and
      whether it returned none. */
  datatype QueryResult = QueryResult(queryResultPred: seq<Document>, isNoResult: bool)

  /** The outcome recorded for a search that returned `documents`. */
  function OutcomeOf(documents: seq<Document>): QueryResult
  {
    QueryResult(documents, documents == [])
  }

  /** The window after one more request: appended at the back, and the
      front popped first when the window is already full. */
  function Record(window: seq<QueryResult>, entry: QueryResult): seq<QueryResult>
  {
    if |window| < MinInDay then window + [entry] else window[1..] + [entry]
  }

  /** The last `n` elements of `s` (all of them when there are fewer). */
  function LastN<T>(s: seq<T>, n: nat): (r: seq<T>)
    ensures |r| <= n && |r| <= |s|
  {
    if |s| <= n then s else s[|s| - n..]
  }

  /** The window grows by one below capacity and keeps its size at
      capacity; the new entry is at the back and the older entries keep
      their order, only the oldest one leaving when the window is full. */
  lemma RecordIsFifo(window: seq<QueryResult>, entry: QueryResult)
    requires |window| <= MinInDay
    ensures |window| < MinInDay ==> |Record(window, entry)| == |window| + 1
    ensures |window| == MinInDay ==> |Record(window, entry)| == MinInDay
    ensures |Record(window, entry)| <= MinInDay
    ensures Record(window, entry)[|Record(window, entry)| - 1] == entry
    ensures |window| < MinInDay ==> Record(window, entry)[..|window|] == window
    ensures |window| == MinInDay ==> Record(window, entry)[..MinInDay - 1] == window[1..]
  {
  }

  /** Recording every request keeps exactly the last `MinInDay` of all
      requests ever made. */
  lemma {:induction false} RecordKeepsLast(history: seq<QueryResult>, entry: QueryResult)
    ensures Record(LastN(history, MinInDay), entry) == LastN(history + [entry], MinInDay)
  {
    var extended := history + [entry];
    if |history| < MinInDay {
    } else if |history| == MinInDay {
      assert extended[|extended| - MinInDay..] == history[1..] + [entry];
    } else {
      var window := history[|history| - MinInDay..];
      assert window[1..] == history[|history| - MinInDay + 1..];
      assert extended[|extended| - MinInDay..] == history[|history| - MinInDay + 1..] + [entry];
    }
  }

  /** The number of entries that found nothing (`std::count_if`). */
  function CountNoResult(window: seq<QueryResult>): nat
  {
    if window == [] then 0
    else CountNoResult(window[..|window| - 1]) + (if window[|window| - 1].isNoResult then 1 else 0)
  }

  /** The positions of the entries that found nothing. */
  ghost function NoResultPositions(window: seq<QueryResult>): set<int>
  {
    set i | 0 <= i < |window| && window[i].isNoResult
  }

  /** The count is the number of positions holding an entry that found
      nothing, so it lies between 0 and the size of the window. */
  lemma {:induction false} CountNoResultCounts(window: seq<QueryResult>)
    ensures CountNoResult(window) == |NoResultPositions(window)|
    ensures CountNoResult(window) <= |window|
  {
    if window != [] {
      var init := window[..|window| - 1];
      CountNoResultCounts(init);
      var last := |window| - 1;
      assert NoResultPositions(window)
          == NoResultPositions(init) + (if window[last].isNoResult then {last} else {});
    }
  }

  /** `RequestQueue`: the searches made through one server. */
  class RequestQueue {
    const server: SearchServer
    /** `requests_`. */
    var requests: seq<QueryResult>
    /** Every outcome recorded so far, oldest first. */
    ghost var history: seq<QueryResult>

    /** The window is the last `MinInDay` recorded outcomes. */
    ghost predicate Valid()
      reads this
    {
      requests == LastN(history, MinInDay)
    }

    /** `RequestQueue(search_server)`: an empty window over `server`. */
    constructor(server: SearchServer)
      ensures this.server == server
      ensures requests == [] && history == []
      ensures Valid()
    {
      this.server := server;
      requests := [];
      history := [];
    }

    /** `AddFindRequest(raw_query, document_predicate)`: the server's
        answer, recorded in the window; a search that fails records
        nothing. */
    method AddFindRequest(rawQuery: string, pred: DocumentPredicate) returns (r: Result<seq<Document>>)
      requires Valid() && server.Valid()
      modifies this
      ensures Valid()
      ensures r == FindTop(server.stopWords, server.wordToDocumentFreqs, server.documents, server.ln, rawQuery, pred)
      ensures r.Err? ==> requests == old(requests) && history == old(history)
      ensures r.Ok? ==> requests == Record(old(requests), OutcomeOf(r.value))
      ensures r.Ok? ==> history == old(history) + [OutcomeOf(r.value)]
    {
      r := server.FindTopDocuments(rawQuery, pred);
      if r.Err? {
        return;
      }
      var result := QueryResult(r.value, false);
      if r.value == [] {
        result := result.(isNoResult := true);
      }
      RecordKeepsLast(history, result);
      if |requests| < MinInDay {
        requests := requests + [result];
      } else {
        requests := requests[1..];
        requests := requests + [result];
      }
      history := history + [result];
    }

    /** `AddFindRequest(raw_query, status)`: the server's answer for the
        documents with that status. What the call records in the window is
        not specified: the recording helper it calls is not modelled. */
    method AddFindRequestByStatus(rawQuery: string, status: DocumentStatus) returns (r: Result<seq<Document>>)
      requires Valid() && server.Valid()
      modifies this
      ensures Valid()
      ensures r == FindTop(server.stopWords, server.wordToDocumentFreqs, server.documents, server.ln, rawQuery, StatusIs(status))
    {
      r := server.FindTopDocumentsByStatus(rawQuery, status);
    }

    /** `AddFindRequest(raw_query)`: the server's answer for the actual
        documents. What the call records in the window is not specified. */
    method AddFindRequestActual(rawQuery: string) returns (r: Result<seq<Document>>)
      requires Valid() && server.Valid()
      modifies this
      ensures Valid()
      ensures r == FindTop(server.stopWords, server.wordToDocumentFreqs, server.documents, server.ln, rawQuery, StatusIs(Actual))
    {
      r := server.FindTopDocumentsActual(rawQuery);
    }

    /** `GetNoResultRequests()`: how many searches in the window found
        nothing. */
    function GetNoResultRequests(): (count: nat)
      reads this
      ensures count == |NoResultPositions(requests)|
      ensures count <= |requests|
    {
      CountNoResultCounts(requests);
      CountNoResult(requests)
    }
  }
}
