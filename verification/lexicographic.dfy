/** Lexicographic order on strings and sets of strings kept as sorted
    sequences: the model of `std::set<std::string>`, whose iteration order
    is ascending `std::string` comparison. */
module Lexicographic {

  /** `a < b` as `std::string` compares: character by character, a proper
      prefix first. */
  predicate Less(a: string, b: string)
  {
    if a == [] then b != []
    else if b == [] then false
    else if a[0] != b[0] then a[0] < b[0]
    else Less(a[1..], b[1..])
  }

  lemma {:induction false} LessIrreflexive(a: string)
    ensures !Less(a, a)
  {
    if a != [] {
      LessIrreflexive(a[1..]);
    }
  }

  lemma {:induction false} LessTransitive(a: string, b: string, c: string)
    requires Less(a, b) && Less(b, c)
    ensures Less(a, c)
  {
    if a != [] && b != [] && c != [] && a[0] == b[0] && b[0] == c[0] {
      LessTransitive(a[1..], b[1..], c[1..]);
    }
  }

  lemma {:induction false} LessTotal(a: string, b: string)
    requires a != b
    ensures Less(a, b) || Less(b, a)
  {
    if a != [] && b != [] && a[0] == b[0] {
      assert a == [a[0]] + a[1..] && b == [b[0]] + b[1..];
      LessTotal(a[1..], b[1..]);
    }
  }

  /** Strictly ascending: the iteration order of a `std::set<std::string>`. */
  ghost predicate StrictlySorted(s: seq<string>)
  {
    forall i, j :: 0 <= i < j < |s| ==> Less(s[i], s[j])
  }

  function Elements(s: seq<string>): set<string>
  {
    set x | x in s
  }

  /** `std::set<std::string>::insert`: adds `x` at its place unless present. */
  function Insert(s: seq<string>, x: string): (r: seq<string>)
    requires StrictlySorted(s)
    ensures StrictlySorted(r)
    ensures Elements(r) == Elements(s) + {x}
    ensures |r| == if x in s then |s| else |s| + 1
  {
    if s == [] then [x]
    else if x == s[0] then s
    else if Less(x, s[0]) then
      assert forall j :: 0 <= j < |s| ==> Less(x, s[j]) by {
        forall j | 0 <= j < |s| ensures Less(x, s[j]) {
          if j > 0 { LessTransitive(x, s[0], s[j]); }
        }
      }
      assert x !in s by { LessIrreflexive(x); }
      [x] + s
    else
      LessTotal(x, s[0]);
      HeadNotInTail(s);
      var rest := Insert(s[1..], x);
      assert s == [s[0]] + s[1..];
      assert Elements(s) == {s[0]} + Elements(s[1..]);
      assert forall j :: 0 <= j < |rest| ==> Less(s[0], rest[j]) by {
        forall j | 0 <= j < |rest| ensures Less(s[0], rest[j]) {
          assert rest[j] in Elements(rest);
          if rest[j] != x {
            var k :| 0 <= k < |s[1..]| && s[1..][k] == rest[j];
            assert Less(s[0], s[k + 1]);
          }
        }
      }
      assert Elements([s[0]] + rest) == {s[0]} + Elements(rest);
      [s[0]] + rest
  }

  /** The head of a strictly sorted sequence does not occur in its tail. */
  lemma HeadNotInTail(s: seq<string>)
    requires StrictlySorted(s) && s != []
    ensures s[0] !in s[1..]
  {
    forall j | 1 <= j < |s| ensures s[j] != s[0] {
      LessIrreflexive(s[0]);
      assert Less(s[0], s[j]);
    }
  }

  /** Keeping only some elements of a strictly sorted sequence leaves it
      strictly sorted. */
  lemma {:induction false} FilterSorted(s: seq<string>, keep: string -> bool)
    requires StrictlySorted(s)
    ensures StrictlySorted(Keep(s, keep))
    ensures Elements(Keep(s, keep)) == set x | x in s && keep(x)
  {
    if s != [] {
      FilterSorted(s[1..], keep);
      var rest := Keep(s[1..], keep);
      forall j | 0 <= j < |rest| ensures Less(s[0], rest[j]) {
        assert rest[j] in s[1..];
        var k :| 0 <= k < |s[1..]| && s[1..][k] == rest[j];
        assert Less(s[0], s[k + 1]);
      }
      assert s == [s[0]] + s[1..];
      assert (set x | x in s && keep(x))
          == (if keep(s[0]) then {s[0]} else {}) + (set x | x in s[1..] && keep(x));
      if keep(s[0]) {
        SortedCons(s[0], rest);
        assert Elements([s[0]] + rest) == {s[0]} + Elements(rest);
      }
    }
  }

  /** A word below every word of a strictly sorted sequence can go in
      front of it. */
  lemma SortedCons(h: string, rest: seq<string>)
    requires StrictlySorted(rest)
    requires forall j :: 0 <= j < |rest| ==> Less(h, rest[j])
    ensures StrictlySorted([h] + rest)
  {
    var r := [h] + rest;
    forall i, j | 0 <= i < j < |r| ensures Less(r[i], r[j]) {
      assert r[j] == rest[j - 1];
      if i > 0 {
        assert r[i] == rest[i - 1];
      }
    }
  }

  /** The elements of `s` satisfying `keep`, in their original order. */
  function Keep(s: seq<string>, keep: string -> bool): (r: seq<string>)
    ensures |r| <= |s|
    ensures forall x :: x in r ==> x in s && keep(x)
  {
    if s == [] then []
    else if keep(s[0]) then [s[0]] + Keep(s[1..], keep)
    else Keep(s[1..], keep)
  }

  /** Filtering a sequence extended at the back. */
  lemma {:induction false} KeepSnoc(s: seq<string>, x: string, keep: string -> bool)
    ensures Keep(s + [x], keep) == Keep(s, keep) + (if keep(x) then [x] else [])
  {
    if s != [] {
      assert (s + [x])[1..] == s[1..] + [x];
      KeepSnoc(s[1..], x, keep);
    } else {
      assert [x][1..] == [];
    }
  }
}
