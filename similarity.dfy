/**
 * `calculateSimilarity`: the Jaccard coefficient of two users' purchase-id sets,
 * with 0 for two empty histories. Duplicates in a history collapse, as they do
 * in `new Set(purchaseHistory)`.
 */
module Similarity {
  import opened Records

  /** The distinct ids of a history. */
  function Ids(history: seq<int>): set<int>
  {
    set x | x in history
  }

  /** A proper subset is strictly smaller. */
  lemma SubsetCard(a: set<int>, b: set<int>)
    requires a <= b
    ensures |a| <= |b|
    ensures a != b ==> |a| < |b|
  {
    var d := b - a;
    assert b == a + d;
    assert a * d == {};
    if a != b {
      assert d != {};
    }
  }

  /**
   * |A ∩ B| / |A ∪ B|, or 0 when the union is empty. The result lies in [0, 1],
   * is 0 exactly when the histories share no id, and is 1 exactly when they hold
   * the same non-empty set of ids.
   */
  function Jaccard(h1: seq<int>, h2: seq<int>): (r: real)
    ensures 0.0 <= r <= 1.0
    ensures r == 0.0 <==> forall x :: x in h1 ==> x !in h2
    ensures r == 1.0 <==> Ids(h1) == Ids(h2) && |h1| > 0
  {
    var a, b := Ids(h1), Ids(h2);
    var intersection, union := |a * b|, |a + b|;
    SubsetCard(a * b, a + b);
    assert a * b == a + b <==> a == b;
    assert |h1| > 0 ==> h1[0] in a;
    assert a == {} ==> |h1| == 0;
    assert intersection == 0 <==> forall x :: x in h1 ==> x !in h2 by {
      if forall x :: x in h1 ==> x !in h2 {
        assert a * b == {};
      }
      assert forall x :: x in h1 && x in h2 ==> x in a * b;
    }
    if union == 0 then 0.0
    else
      var r := intersection as real / union as real;
      assert r * union as real == intersection as real <= union as real;
      assert r > 1.0 ==> r * union as real > union as real;
      assert r < 0.0 ==> r * union as real < 0.0;
      r
  }

  /** `calculateSimilarity(user1, user2)`. */
  function CalculateSimilarity(u1: User, u2: User): (r: real)
    ensures 0.0 <= r <= 1.0
    ensures r > 0.0 <==> exists x :: x in u1.purchaseHistory && x in u2.purchaseHistory
  {
    Jaccard(u1.purchaseHistory, u2.purchaseHistory)
  }

  lemma SimilaritySymmetric(u1: User, u2: User)
    ensures CalculateSimilarity(u1, u2) == CalculateSimilarity(u2, u1)
  {
    var a, b := Ids(u1.purchaseHistory), Ids(u2.purchaseHistory);
    assert a * b == b * a && a + b == b + a;
  }

  /** Two empty histories are 0 similar (the division-by-zero guard). */
  lemma SimilarityOfEmpty(u1: User, u2: User)
    requires u1.purchaseHistory == [] && u2.purchaseHistory == []
    ensures CalculateSimilarity(u1, u2) == 0.0
  {
  }

  /** Similarity is by id: histories sharing no id are 0 similar, whatever their categories. */
  lemma SimilarityIsPerId(u1: User, u2: User)
    ensures CalculateSimilarity(u1, u2) == 0.0
        <==> forall x :: x in u1.purchaseHistory ==> x !in u2.purchaseHistory
  {
  }

  /** A non-empty history is 1 similar to itself. */
  lemma SimilarityReflexive(u: User)
    requires |u.purchaseHistory| > 0
    ensures CalculateSimilarity(u, u) == 1.0
  {
  }
}
