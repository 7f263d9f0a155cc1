/** Splitting text into words and validating words
    (search-server/main.cpp, `SplitIntoWords`, `IsValidWord`,
    `MakeUniqueNonEmptyStrings`). */
module Tokenizer {

  /** A character the server refuses inside a word: code 0 to 31. */
  predicate IsControl(c: char)
  {
    '\0' <= c < ' '
  }

  /** `IsValidWord` answers true exactly when no character is a control
      character; where it answers false the C++ code throws
      `invalid_argument`, which the callers of this function model. */
  function IsValidWord(word: string): (valid: bool)
    ensures valid <==> forall i :: 0 <= i < |word| ==> !IsControl(word[i])
  {
    word == [] || (!IsControl(word[0]) && IsValidWord(word[1..]))
  }

  /** The pieces of `text` between single spaces, empty pieces included:
      the reference against which the word splitter is specified. */
  function Fragments(text: string): (r: seq<string>)
    ensures |r| >= 1
    ensures forall k :: 0 <= k < |r| ==> ' ' !in r[k]
  {
    if text == [] then [[]]
    else
      var rest := Fragments(text[1..]);
      if text[0] == ' ' then [[]] + rest
      else [[text[0]] + rest[0]] + rest[1..]
  }

  /** Joining the fragments with single spaces gives the text back, so the
      fragments are exactly the text cut at its spaces. */
  lemma {:induction false} FragmentsJoin(text: string)
    ensures Join(Fragments(text)) == text
  {
    if text != [] {
      var rest := Fragments(text[1..]);
      FragmentsJoin(text[1..]);
      assert text == [text[0]] + text[1..];
      if text[0] == ' ' {
        assert Join([[]] + rest) == [' '] + Join(rest);
      } else {
        JoinPrepend([text[0]], rest);
      }
    }
  }

  /** The pieces joined back with one space between consecutive pieces. */
  function Join(pieces: seq<string>): string
  {
    if pieces == [] then []
    else if |pieces| == 1 then pieces[0]
    else pieces[0] + [' '] + Join(pieces[1..])
  }

  lemma JoinPrepend(a: string, pieces: seq<string>)
    requires pieces != []
    ensures Join([a + pieces[0]] + pieces[1..]) == a + Join(pieces)
  {
    var t := [a + pieces[0]] + pieces[1..];
    assert t[1..] == pieces[1..];
  }

  /** The non-empty elements of `pieces`, in order. */
  function NonEmpty(pieces: seq<string>): (r: seq<string>)
    ensures forall k :: 0 <= k < |r| ==> r[k] != [] && r[k] in pieces
  {
    if pieces == [] then []
    else if pieces[0] == [] then NonEmpty(pieces[1..])
    else [pieces[0]] + NonEmpty(pieces[1..])
  }

  /** The words of `text`: its non-empty space-separated fragments, in
      their original order. */
  ghost function Words(text: string): (r: seq<string>)
    ensures forall k :: 0 <= k < |r| ==> r[k] != [] && ' ' !in r[k]
  {
    NonEmpty(Fragments(text))
  }

  /** `SplitIntoWords`: scans `text` once, cutting at every space and
      dropping empty pieces. */
  method SplitIntoWords(text: string) returns (words: seq<string>)
    ensures words == Words(text)

  {
    words := [];
    var word: string := [];
    assert text[0..] == text;
    PendingEmpty(Fragments(text));
    for i := 0 to |text|
      invariant words + NonEmpty(Pending(word, Fragments(text[i..]))) == Words(text)
    {
      assert text[i..] == [text[i]] + text[i + 1..];
      PendingStep(word, text[i], text[i + 1..]);
      var f' := Fragments(text[i + 1..]);
      if text[i] == ' ' {
        NonEmptyCons(word, f');
        if word != [] {
          words := words + [word];
          word := [];
        }
        PendingEmpty(f');
      } else {
        word := word + [text[i]];
      }
    }
    assert text[|text|..] == [];
    PendingStep(word, ' ', []);
    if word != [] {
      words := words + [word];
    }
  }

  lemma NonEmptyCons(a: string, t: seq<string>)
    ensures NonEmpty([a] + t) == (if a == [] then [] else [a]) + NonEmpty(t)
  {
    assert ([a] + t)[1..] == t;
  }

  lemma PendingEmpty(f: seq<string>)
    requires f != []
    ensures Pending([], f) == f
  {
    assert [] + f[0] == f[0];
  }

  /** One scanner step: a space closes the pending word, any other
      character extends it. */
  lemma PendingStep(word: string, c: char, rest: string)
    ensures c == ' ' ==> Pending(word, Fragments([c] + rest)) == [word] + Fragments(rest)
    ensures c != ' ' ==> Pending(word, Fragments([c] + rest)) == Pending(word + [c], Fragments(rest))
    ensures Pending(word, Fragments([])) == [word]
  {
    var t := [c] + rest;
    assert t[1..] == rest;
    assert word + [] == word;
    var f := Fragments(rest);
    if c != ' ' {
      assert word + ([c] + f[0]) == (word + [c]) + f[0];
    }
  }

  /** The fragments still to come, the first one extended by the pending
      `word` the scanner has collected so far. */
  function Pending(word: string, f: seq<string>): seq<string>
    requires f != []
  {
    [word + f[0]] + f[1..]
  }

  /** `MakeUniqueNonEmptyStrings`: the distinct non-empty strings given. */
  method MakeUniqueNonEmptyStrings(strings: seq<string>) returns (r: set<string>)
    ensures forall s :: s in r <==> s in strings && s != []
  {
    r := {};
    for i := 0 to |strings|
      invariant forall s :: s in r <==> s in strings[..i] && s != []
    {
      assert strings[..i + 1] == strings[..i] + [strings[i]];
      if strings[i] != [] {
        r := r + {strings[i]};
      }
    }
    assert strings[..|strings|] == strings;
  }
}
