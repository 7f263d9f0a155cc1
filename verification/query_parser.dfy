/** Turning query text into plus and minus words (search-server/main.cpp,
    `QueryWord`, `Query`, `ParseQueryWord`, `ParseQuery`). The query's word
    sets are `std::set<std::string>` in the source; here they are strictly
    sorted sequences, which fixes their iteration order as the source's. */
module QueryParser {
  import opened Wrappers
  import opened Lexicographic
  import Tokenizer

  /** `SearchServer::QueryWord`. */
  datatype QueryWord = QueryWord(data: string, isMinus: bool, isStop: bool)

  /** `SearchServer::Query`. */
  datatype Query = Query(plusWords: seq<string>, minusWords: seq<string>)

  ghost predicate WellFormed(q: Query)
  {
    StrictlySorted(q.plusWords) && StrictlySorted(q.minusWords)
  }

  /** `ParseQueryWord`: a leading `-` marks a minus word; the bare `-`, a
      double `--` and a control character are `invalid_argument`, whether
      or not the word is a stop word. */
  function ParseQueryWord(stopWords: set<string>, text: string): (r: Result<QueryWord>)
    ensures r.Err? <==>
      || text == []
      || !Tokenizer.IsValidWord(text)
      || text == "-"
      || (|text| >= 2 && text[0] == '-' && text[1] == '-')
    ensures r.Err? ==> r.error == InvalidArgument
    ensures r.Ok? ==> r.value.isMinus == (text[0] == '-')
    ensures r.Ok? && r.value.isMinus ==> text == "-" + r.value.data
    ensures r.Ok? && !r.value.isMinus ==> text == r.value.data
    ensures r.Ok? ==> r.value.data != [] && r.value.data[0] != '-'
    ensures r.Ok? ==> (r.value.isStop <==> r.value.data in stopWords)
  {
    if text == [] then Err(InvalidArgument)
    else if !Tokenizer.IsValidWord(text) then Err(InvalidArgument)
    else if text[0] == '-' then
      var rest := text[1..];
      assert text == "-" + rest;
      if rest == [] then Err(InvalidArgument)
      else if rest[0] == '-' then Err(InvalidArgument)
      else Ok(QueryWord(rest, true, rest in stopWords))
    else Ok(QueryWord(text, false, text in stopWords))
  }

  /** The effect of one parsed word on the query: a stop word is dropped,
      any other word is inserted into the minus or the plus set. */
  function AddWord(q: Query, w: QueryWord): (r: Query)
    requires WellFormed(q)
    ensures WellFormed(r)
  {
    if w.isStop then q
    else if w.isMinus then Query(q.plusWords, Insert(q.minusWords, w.data))
    else Query(Insert(q.plusWords, w.data), q.minusWords)
  }

  /** `ParseQuery` over an already split word list, word by word in order;
      the first bad word makes the whole query `invalid_argument`. */
  function ParseWords(stopWords: set<string>, words: seq<string>): (r: Result<Query>)
    ensures r.Ok? ==> WellFormed(r.value)
    ensures r.Err? ==> r.error == InvalidArgument
  {
    if words == [] then Ok(Query([], []))
    else
      match ParseWords(stopWords, words[..|words| - 1])
      case Err(e) => Err(e)
      case Ok(q) =>
        match ParseQueryWord(stopWords, words[|words| - 1])
        case Err(e) => Err(e)
        case Ok(w) => Ok(AddWord(q, w))
  }

  /** `ParseQuery(text)`. */
  ghost function ParseQuerySpec(stopWords: set<string>, text: string): Result<Query>
  {
    ParseWords(stopWords, Tokenizer.Words(text))
  }

  /** The plus words a well-formed word list contributes. */
  ghost function PlusSet(stopWords: set<string>, words: seq<string>): set<string>
  {
    set t | t in words && t != [] && t[0] != '-' && t !in stopWords
  }

  /** The minus words (without their `-`) a well-formed word list contributes. */
  ghost function MinusSet(stopWords: set<string>, words: seq<string>): set<string>
  {
    set t | t in words && |t| >= 2 && t[0] == '-' && t[1..] !in stopWords :: t[1..]
  }

  /** A query fails exactly when one of its words is malformed. */
  lemma {:induction false} ParseWordsFails(stopWords: set<string>, words: seq<string>)
    ensures ParseWords(stopWords, words).Err? <==>
      exists j :: 0 <= j < |words| && ParseQueryWord(stopWords, words[j]).Err?
  {
    if words != [] {
      var init := words[..|words| - 1];
      ParseWordsFails(stopWords, init);
      assert forall j :: 0 <= j < |init| ==> init[j] == words[j];
      if exists j :: 0 <= j < |words| && ParseQueryWord(stopWords, words[j]).Err? {
        var j :| 0 <= j < |words| && ParseQueryWord(stopWords, words[j]).Err?;
        if j < |init| {
          assert ParseQueryWord(stopWords, init[j]).Err?;
        }
      }
    }
  }

  /** A successful parse puts every non-stop plus word into the plus set and
      every non-stop minus word, stripped of its `-`, into the minus set, and
      nothing else; in particular no stop word survives. */
  lemma {:induction false} ParseWordsSets(stopWords: set<string>, words: seq<string>)
    requires ParseWords(stopWords, words).Ok?
    ensures Elements(ParseWords(stopWords, words).value.plusWords) == PlusSet(stopWords, words)
    ensures Elements(ParseWords(stopWords, words).value.minusWords) == MinusSet(stopWords, words)
    ensures Elements(ParseWords(stopWords, words).value.plusWords) !! stopWords
    ensures Elements(ParseWords(stopWords, words).value.minusWords) !! stopWords
  {
    if words != [] {
      var init := words[..|words| - 1];
      var last := words[|words| - 1];
      var prev := ParseWords(stopWords, init);
      assert prev.Ok?;
      ParseWordsSets(stopWords, init);
      var w := ParseQueryWord(stopWords, last).value;
      assert ParseWords(stopWords, words).value == AddWord(prev.value, w);
      assert words == init + [last];
      PlusSetSnoc(stopWords, init, last);
      MinusSetSnoc(stopWords, init, last);
    }
  }

  lemma PlusSetSnoc(stopWords: set<string>, init: seq<string>, t: string)
    ensures PlusSet(stopWords, init + [t]) == PlusSet(stopWords, init) +
      (if t != [] && t[0] != '-' && t !in stopWords then {t} else {})
  {
  }

  lemma MinusSetSnoc(stopWords: set<string>, init: seq<string>, t: string)
    ensures MinusSet(stopWords, init + [t]) == MinusSet(stopWords, init) +
      (if |t| >= 2 && t[0] == '-' && t[1..] !in stopWords then {t[1..]} else {})
  {
    var l := MinusSet(stopWords, init + [t]);
    var r := MinusSet(stopWords, init) +
      (if |t| >= 2 && t[0] == '-' && t[1..] !in stopWords then {t[1..]} else {});
    forall x | x in l ensures x in r {
      var u :| u in init + [t] && |u| >= 2 && u[0] == '-' && u[1..] !in stopWords && x == u[1..];
    }
  }
}
