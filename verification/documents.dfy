/** The values the server stores and returns (search-server/main.cpp,
    `Document`, `DocumentStatus`, `DocumentData`, `ComputeAverageRating`),
    and C++ integer division, which truncates toward zero. */
module Documents {

  /** `DocumentStatus`. */
  datatype DocumentStatus = Actual | Irrelevant | Banned | Removed

  /** `Document`: one search result. `relevance` is a `double` in the
      source and an exact real here. */
  datatype Document = Document(id: int, relevance: real, rating: int)

  /** `SearchServer::DocumentData`: what is stored per document id. */
  datatype DocumentData = DocumentData(rating: int, status: DocumentStatus)

  function Abs(x: int): nat
  {
    if x < 0 then -x else x
  }

  /** C++ `a / b` on integers: the quotient truncated toward zero (Dafny's
      own `/` is Euclidean and differs for a negative dividend). */
  function TruncDiv(a: int, b: int): (q: int)
    requires b != 0
    ensures Abs(q * b) <= Abs(a) < Abs(q * b) + Abs(b)
    ensures q * b == 0 || (q * b < 0 <==> a < 0)
  {
    var m := Abs(a) / Abs(b);
    var q := if (a < 0) == (b < 0) then m else -m;
    TruncDivProduct(a, b, m, q);
    q
  }

  /** The product of the truncated quotient and the divisor is the
      largest multiple of `|b|` not above `|a|`, with the sign of `a`. */
  lemma TruncDivProduct(a: int, b: int, m: int, q: int)
    requires b != 0 && m == Abs(a) / Abs(b)
    requires q == if (a < 0) == (b < 0) then m else -m
    ensures q * b == if a < 0 then -(m * Abs(b)) else m * Abs(b)
    ensures 0 <= m * Abs(b) <= Abs(a) < m * Abs(b) + Abs(b)
  {
    DivBounds(Abs(a), Abs(b));
    MulNegate(m, b);
    if b < 0 {
      // m * |b| == -(m * b)
      assert Abs(b) == -b;
      if a < 0 {
        assert q == m;
      } else {
        assert q == -m;
      }
    } else {
      // m * |b| == m * b
      assert Abs(b) == b;
      if a < 0 {
        assert q == -m;
      } else {
        assert q == m;
      }
    }
  }

  /** Negating one factor negates the product. */
  lemma MulNegate(x: int, y: int)
    ensures (-x) * y == -(x * y)
    ensures x * (-y) == -(x * y)
  {
  }

  /** Euclidean division of naturals, as Dafny defines it. */
  lemma DivBounds(x: nat, y: nat)
    requires y > 0
    ensures (x / y) * y <= x < (x / y) * y + y
  {
  }

  /** C++ `a % b` on integers: the remainder that goes with `TruncDiv`. */
  function TruncRem(a: int, b: int): (r: int)
    requires b != 0
    ensures TruncDiv(a, b) * b + r == a
    ensures Abs(r) < Abs(b)
  {
    a - TruncDiv(a, b) * b
  }

  /** The sum of the ratings (`std::accumulate` starting from 0). */
  function Sum(ratings: seq<int>): int
  {
    if ratings == [] then 0 else ratings[0] + Sum(ratings[1..])
  }

  /** `ComputeAverageRating`: 0 for no ratings, otherwise the sum divided
      by the count, truncated toward zero. */
  function ComputeAverageRating(ratings: seq<int>): (rating: int)
    ensures ratings == [] ==> rating == 0
    ensures ratings != [] ==>
      Abs(rating * |ratings|) <= Abs(Sum(ratings)) < Abs(rating * |ratings|) + |ratings|
    ensures ratings != [] ==> (rating * |ratings| == 0 || (rating < 0 <==> Sum(ratings) < 0))
  {
    if ratings == [] then 0
    else TruncDiv(Sum(ratings), |ratings|)
  }

  /** A subset is no larger than its superset. */
  lemma {:induction false} SubsetCardinality<T>(a: set<T>, b: set<T>)
    requires a <= b
    ensures |a| <= |b|
    decreases |b|
  {
    if a != {} {
      if !exists x :: x in a {
        assert false;
      }
      var x :| x in a;
      SubsetCardinality(a - {x}, b - {x});
    }
  }
}
