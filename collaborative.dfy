/**
 * `collaborativeFiltering`: rank the other users by similarity to the target
 * (stable, most similar first), then walk them and, for each one with a
 * positive similarity, add their purchases that the target does not own to an
 * insertion-ordered set; the result is that set's contents in insertion order.
 *
 * The specification functions fold from the end of their sequence, so that a
 * prefix of the walk is described by the same function as the whole walk.
 */
module CollaborativeFilter {
  import opened Records
  import opened Similarity
  import opened Ranking

  /** An entry of the similarity list: another user and its similarity to the target. */
  datatype Neighbour = Neighbour(user: User, similarity: real)

  function SimilarityKey(n: Neighbour): real
  {
    n.similarity
  }

  /** No id occurs twice. */
  ghost predicate Distinct(s: seq<int>)
  {
    forall i, j :: 0 <= i < j < |s| ==> s[i] != s[j]
  }

  /**
   * Every user whose id differs from the target's, paired with its similarity
   * to the target, in the order of `users`.
   */
  function Neighbours(target: User, users: seq<User>): (r: seq<Neighbour>)
    ensures |r| <= |users|
    ensures forall n :: n in r <==>
      n.user in users && n.user.id != target.id && n.similarity == CalculateSimilarity(target, n.user)
  {
    if |users| == 0 then []
    else
      var u := users[|users| - 1];
      assert users == users[..|users| - 1] + [u];
      Neighbours(target, users[..|users| - 1])
        + (if u.id != target.id then [Neighbour(u, CalculateSimilarity(target, u))] else [])
  }

  /**
   * The positions of `users` whose id differs from the target's, in increasing
   * order: every such position exactly once.
   */
  function Positions(target: User, users: seq<User>): (idx: seq<nat>)
    ensures forall k :: 0 <= k < |idx| ==> idx[k] < |users| && users[idx[k]].id != target.id
    ensures forall k, l :: 0 <= k < l < |idx| ==> idx[k] < idx[l]
    ensures forall i :: 0 <= i < |users| && users[i].id != target.id ==> i in idx
  {
    if |users| == 0 then []
    else
      var n := |users| - 1;
      var prev := Positions(target, users[..n]);
      assert forall k :: 0 <= k < |prev| ==> users[prev[k]] == users[..n][prev[k]];
      assert forall i :: 0 <= i < n ==> users[i] == users[..n][i];
      prev + (if users[n].id != target.id then [n] else [])
  }

  /**
   * The similarity list is `users` filtered in place: its k-th entry is the user
   * at the k-th other position, with its similarity. So it has one entry per
   * other position, in the order of `users`.
   */
  lemma {:induction false} NeighboursAt(target: User, users: seq<User>)
    ensures |Neighbours(target, users)| == |Positions(target, users)|
    ensures forall k :: 0 <= k < |Positions(target, users)| ==>
      Neighbours(target, users)[k]
        == Neighbour(users[Positions(target, users)[k]], CalculateSimilarity(target, users[Positions(target, users)[k]]))
  {
    if |users| > 0 {
      var n := |users| - 1;
      var u := users[n];
      var nb, prev := Neighbours(target, users[..n]), Positions(target, users[..n]);
      var tail := if u.id != target.id then [Neighbour(u, CalculateSimilarity(target, u))] else [];
      var ptail := if u.id != target.id then [n] else [];
      assert Neighbours(target, users) == nb + tail;
      assert Positions(target, users) == prev + ptail;
      NeighboursAt(target, users[..n]);
      forall k | 0 <= k < |prev + ptail|
        ensures (nb + tail)[k] == Neighbour(users[(prev + ptail)[k]], CalculateSimilarity(target, users[(prev + ptail)[k]]))
      {
        if k < |prev| {
          assert users[..n][prev[k]] == users[prev[k]];
        }
      }
    }
  }

  /** The similarity list as one sequence: the other users in the order of `users`. */
  lemma NeighboursInOrder(target: User, users: seq<User>)
    ensures var p := Positions(target, users);
            Neighbours(target, users)
              == seq(|p|, i requires 0 <= i < |p| => Neighbour(users[p[i]], CalculateSimilarity(target, users[p[i]])))
  {
    NeighboursAt(target, users);
  }

  /** The similarity list after the stable sort, most similar first. */
  function Ranked(target: User, users: seq<User>): (r: seq<Neighbour>)
    ensures |r| == |Neighbours(target, users)|
    ensures |r| == |Positions(target, users)|
  {
    NeighboursAt(target, users);
    SortDesc(Neighbours(target, users), SimilarityKey)
  }

  /**
   * `ids.forEach(id => { if (!owned.includes(id)) set.add(id) })` on a set whose
   * contents so far are `acc`: the ids that are new and not owned are appended
   * in the order of `ids`.
   */
  function AddPurchases(acc: seq<int>, ids: seq<int>, owned: seq<int>): (r: seq<int>)
    ensures acc <= r
    ensures forall x :: x in r <==> x in acc || (x in ids && x !in owned)
    ensures Distinct(acc) ==> Distinct(r)
  {
    if |ids| == 0 then acc
    else
      var prev := AddPurchases(acc, ids[..|ids| - 1], owned);
      var id := ids[|ids| - 1];
      assert ids == ids[..|ids| - 1] + [id];
      if id !in owned && id !in prev then prev + [id] else prev
  }

  /** The position of the first occurrence of `x` in `s`. */
  function IndexOf(s: seq<int>, x: int): (i: nat)
    requires x in s
    ensures i < |s| && s[i] == x && x !in s[..i]
  {
    if s[0] == x then 0
    else
      assert x in s[1..] by { var k :| 0 <= k < |s| && s[k] == x; assert s[1..][k - 1] == x; }
      var j := IndexOf(s[1..], x);
      assert s[..j + 1] == [s[0]] + s[1..][..j];
      j + 1
  }

  /** A position holding `x` with no earlier `x` is the first occurrence. */
  lemma IndexOfUnique(s: seq<int>, x: int, i: nat)
    requires i < |s| && s[i] == x && x !in s[..i]
    ensures IndexOf(s, x) == i
  {
    var j := IndexOf(s, x);
    InPrefix(s, j, i);
    InPrefix(s, i, j);
  }

  lemma InPrefix(s: seq<int>, k: nat, n: nat)
    requires n <= |s|
    ensures k < n ==> s[k] in s[..n]
  {
    if k < n {
      assert s[..n][k] == s[k];
    }
  }

  /** The first occurrence of an element of a prefix lies in that prefix. */
  lemma IndexOfPrefix(s: seq<int>, n: nat, x: int)
    requires n <= |s| && x in s[..n]
    ensures x in s && IndexOf(s, x) == IndexOf(s[..n], x) < n
  {
    var j := IndexOf(s[..n], x);
    assert s[..n][..j] == s[..j];
    IndexOfUnique(s, x, j);
  }

  /**
   * The ids appended by `AddPurchases` come from `ids` and follow the order of
   * their first occurrence there: one user's purchases enter the set in that
   * user's purchase order.
   */
  lemma {:induction false} AddPurchasesOrder(acc: seq<int>, ids: seq<int>, owned: seq<int>)
    ensures forall i :: |acc| <= i < |AddPurchases(acc, ids, owned)| ==>
      AddPurchases(acc, ids, owned)[i] in ids && AddPurchases(acc, ids, owned)[i] !in acc
    ensures forall i, j :: |acc| <= i < j < |AddPurchases(acc, ids, owned)| ==>
      IndexOf(ids, AddPurchases(acc, ids, owned)[i]) < IndexOf(ids, AddPurchases(acc, ids, owned)[j])
  {
    var r := AddPurchases(acc, ids, owned);
    if |ids| > 0 {
      var n := |ids| - 1;
      var prev := AddPurchases(acc, ids[..n], owned);
      var id := ids[n];
      AddPurchasesOrder(acc, ids[..n], owned);
      forall i | |acc| <= i < |prev|
        ensures prev[i] in ids[..n]
        ensures prev[i] in ids && IndexOf(ids, prev[i]) == IndexOf(ids[..n], prev[i]) < n
      {
        IndexOfPrefix(ids, n, prev[i]);
      }
      if r != prev {
        assert r == prev + [id] && id !in prev && id !in owned;
        assert id !in ids[..n];
        IndexOfUnique(ids, id, n);
        assert id !in acc;
        forall i, j | |acc| <= i < j < |r| ensures IndexOf(ids, r[i]) < IndexOf(ids, r[j]) {
          if j == |prev| {
            assert r[j] == id && r[i] == prev[i];
          } else {
            assert r[i] == prev[i] && r[j] == prev[j];
          }
        }
      }
    }
  }

  /** The contents of the recommendation set after walking `ranked`. */
  function Gather(ranked: seq<Neighbour>, owned: seq<int>): (r: seq<int>)
    ensures Distinct(r)
    ensures forall x :: x in r ==> x !in owned
    ensures forall x :: x in r <==> exists k :: 0 <= k < |ranked| && ranked[k].similarity > 0.0
                                              && x in ranked[k].user.purchaseHistory && x !in owned
  {
    if |ranked| == 0 then []
    else
      var prev := Gather(ranked[..|ranked| - 1], owned);
      var n := ranked[|ranked| - 1];
      var r := if n.similarity > 0.0 then AddPurchases(prev, n.user.purchaseHistory, owned) else prev;
      assert forall x :: x in r <==> exists k :: 0 <= k < |ranked| && ranked[k].similarity > 0.0
                                                && x in ranked[k].user.purchaseHistory && x !in owned by {
        forall x | x in r ensures exists k :: 0 <= k < |ranked| && ranked[k].similarity > 0.0
                                              && x in ranked[k].user.purchaseHistory && x !in owned {
          if x in prev {
            var k :| 0 <= k < |ranked| - 1 && ranked[..|ranked| - 1][k].similarity > 0.0
                     && x in ranked[..|ranked| - 1][k].user.purchaseHistory && x !in owned;
            assert ranked[k] == ranked[..|ranked| - 1][k];
          } else {
            assert ranked[|ranked| - 1] == n;
          }
        }
        forall x, k | 0 <= k < |ranked| && ranked[k].similarity > 0.0
                      && x in ranked[k].user.purchaseHistory && x !in owned
          ensures x in r
        {
          if k < |ranked| - 1 {
            assert ranked[..|ranked| - 1][k] == ranked[k];
          }
        }
      }
      r
  }

  /** `collaborativeFiltering(user)` over the user list `users`. */
  function Collaborative(target: User, users: seq<User>): (r: seq<int>)
    ensures Distinct(r)
    ensures forall x :: x in r ==> x !in target.purchaseHistory
  {
    Gather(Ranked(target, users), target.purchaseHistory)
  }

  /** The nested loops of the walk, proved to compute `Collaborative`. */
  method CollaborativeFiltering(target: User, users: seq<User>) returns (recs: seq<int>)
    ensures recs == Collaborative(target, users)
  {
    var similarities := Ranked(target, users);
    recs := [];
    var i := 0;
    while i < |similarities|
      invariant 0 <= i <= |similarities|
      invariant recs == Gather(similarities[..i], target.purchaseHistory)
    {
      var n := similarities[i];
      assert similarities[..i + 1][..i] == similarities[..i];
      if n.similarity > 0.0 {
        ghost var before := recs;
        var ids := n.user.purchaseHistory;
        var j := 0;
        while j < |ids|
          invariant 0 <= j <= |ids|
          invariant recs == AddPurchases(before, ids[..j], target.purchaseHistory)
        {
          assert ids[..j + 1][..j] == ids[..j];
          if ids[j] !in target.purchaseHistory && ids[j] !in recs {
            recs := recs + [ids[j]];
          }
          j := j + 1;
        }
        assert ids[..j] == ids;
      }
      i := i + 1;
    }
    assert similarities[..i] == similarities;
  }

  /**
   * The result holds each id at most once, none the target owns, and exactly the
   * ids bought by some other user of positive similarity that the target does
   * not own.
   */
  lemma CollaborativeMembers(target: User, users: seq<User>)
    ensures Distinct(Collaborative(target, users))
    ensures forall x :: x in Collaborative(target, users) ==> x !in target.purchaseHistory
    ensures forall x :: x in Collaborative(target, users) <==>
      exists u :: u in users && u.id != target.id && CalculateSimilarity(target, u) > 0.0
                  && x in u.purchaseHistory && x !in target.purchaseHistory
  {
    forall x | x in Collaborative(target, users)
      ensures exists u :: u in users && u.id != target.id && CalculateSimilarity(target, u) > 0.0
                          && x in u.purchaseHistory && x !in target.purchaseHistory
    {
      CollaborativeSound(target, users, x);
    }
    forall x, u | u in users && u.id != target.id && CalculateSimilarity(target, u) > 0.0
                  && x in u.purchaseHistory && x !in target.purchaseHistory
      ensures x in Collaborative(target, users)
    {
      CollaborativeComplete(target, users, u, x);
    }
  }

  /** Each recommended id was bought by another user of positive similarity. */
  lemma CollaborativeSound(target: User, users: seq<User>, x: int)
    requires x in Collaborative(target, users)
    ensures exists u :: u in users && u.id != target.id && CalculateSimilarity(target, u) > 0.0
                        && x in u.purchaseHistory && x !in target.purchaseHistory
  {
    var nbrs, ranked := Neighbours(target, users), Ranked(target, users);
    SortPermutation(nbrs, SimilarityKey);
    var k :| 0 <= k < |ranked| && ranked[k].similarity > 0.0
             && x in ranked[k].user.purchaseHistory && x !in target.purchaseHistory;
    assert ranked[k] in multiset(nbrs);
  }

  /** Each unowned purchase of another user of positive similarity is recommended. */
  lemma CollaborativeComplete(target: User, users: seq<User>, u: User, x: int)
    requires u in users && u.id != target.id && CalculateSimilarity(target, u) > 0.0
    requires x in u.purchaseHistory && x !in target.purchaseHistory
    ensures x in Collaborative(target, users)
  {
    var nbrs, ranked := Neighbours(target, users), Ranked(target, users);
    SortPermutation(nbrs, SimilarityKey);
    var n := Neighbour(u, CalculateSimilarity(target, u));
    assert n in nbrs;
    assert n in multiset(ranked);
    var k :| 0 <= k < |ranked| && ranked[k] == n;
  }

  /**
   * A target that shares no purchase with any other user gets nothing: similarity
   * is by id, so a shared category alone does not help.
   */
  lemma NoOverlapNoCandidates(target: User, users: seq<User>)
    requires forall u :: u in users && u.id != target.id ==>
      forall x :: x in u.purchaseHistory ==> x !in target.purchaseHistory
    ensures Collaborative(target, users) == []
  {
    var r := Collaborative(target, users);
    CollaborativeMembers(target, users);
    forall x ensures x !in r {
      assert !exists u :: u in users && u.id != target.id && CalculateSimilarity(target, u) > 0.0
                          && x in u.purchaseHistory && x !in target.purchaseHistory;
    }
    NonEmptyHasHead(r);

  }

  lemma NonEmptyHasHead(s: seq<int>)
    ensures s != [] ==> s[0] in s
  {
  }

  lemma {:induction false} GatherPrefix(ranked: seq<Neighbour>, k: nat, owned: seq<int>)
    requires k <= |ranked|
    ensures Gather(ranked[..k], owned) <= Gather(ranked, owned)
    decreases |ranked|
  {
    if k < |ranked| {
      var init := ranked[..|ranked| - 1];
      assert init[..k] == ranked[..k];
      GatherPrefix(init, k, owned);
    } else {
      assert ranked[..k] == ranked;
    }
  }

  /**
   * Visiting order: the other users are walked by non-increasing similarity,
   * users of equal similarity in the order of `users`, and whatever the first
   * `k` visited users contribute is a prefix of the result (first-insertion order).
   */
  lemma CollaborativeOrder(target: User, users: seq<User>, s: real, k: nat)
    requires k <= |Ranked(target, users)|
    ensures SortedDesc(Ranked(target, users), SimilarityKey)
    ensures var p := Positions(target, users);
            var inOrder := seq(|p|, i requires 0 <= i < |p| => Neighbour(users[p[i]], CalculateSimilarity(target, users[p[i]])));
            WithKey(Ranked(target, users), SimilarityKey, s) == WithKey(inOrder, SimilarityKey, s)
    ensures Gather(Ranked(target, users)[..k], target.purchaseHistory) <= Collaborative(target, users)
  {
    var p := Positions(target, users);
    NeighboursInOrder(target, users);
    SortStable(Neighbours(target, users), SimilarityKey, s);
    SortSorted(Neighbours(target, users), SimilarityKey);
    GatherPrefix(Ranked(target, users), k, target.purchaseHistory);
  }

  /** The neighbours of positive similarity, in order. */
  function Positive(s: seq<Neighbour>): (r: seq<Neighbour>)
    ensures |r| <= |s|
  {
    if |s| == 0 then []
    else
      var n := s[|s| - 1];
      Positive(s[..|s| - 1]) + (if n.similarity > 0.0 then [n] else [])
  }

  lemma {:induction false} PositiveMultiset(s: seq<Neighbour>, n: Neighbour)
    ensures multiset(Positive(s))[n] == if n.similarity > 0.0 then multiset(s)[n] else 0
  {
    if |s| > 0 {
      assert s == s[..|s| - 1] + [s[|s| - 1]];
      PositiveMultiset(s[..|s| - 1], n);
    }
  }

  /** Neighbours of similarity 0 contribute nothing. */
  lemma {:induction false} GatherPositive(s: seq<Neighbour>, owned: seq<int>)
    ensures Gather(s, owned) == Gather(Positive(s), owned)
  {
    if |s| > 0 {
      var init, n := s[..|s| - 1], s[|s| - 1];
      GatherPositive(init, owned);
      if n.similarity > 0.0 {
        var p := Positive(init) + [n];
        assert Positive(s) == p;
        assert p[..|p| - 1] == Positive(init) && p[|p| - 1] == n;
        assert Gather(p, owned) == AddPurchases(Gather(Positive(init), owned), n.user.purchaseHistory, owned);
      } else {
        assert Positive(s) == Positive(init) + [];
        assert Positive(init) + [] == Positive(init);
      }
    }
  }

  lemma {:induction false} PositiveNeighbours(target: User, users: seq<User>, k: int)
    requires -1 <= k < |users|
    requires k >= 0 ==> users[k].id != target.id && CalculateSimilarity(target, users[k]) > 0.0
    requires forall i :: 0 <= i < |users| && i != k && users[i].id != target.id ==>
      CalculateSimilarity(target, users[i]) == 0.0
    ensures Positive(Neighbours(target, users))
         == if k >= 0 then [Neighbour(users[k], CalculateSimilarity(target, users[k]))] else []
  {
    if |users| > 0 {
      var init := users[..|users| - 1];
      var last := |users| - 1;
      var nb := Neighbours(target, init);
      PositiveNeighbours(target, init, if k == last then -1 else k);
      if users[last].id != target.id {
        var n := Neighbour(users[last], CalculateSimilarity(target, users[last]));
        assert Neighbours(target, users) == nb + [n];
        assert (nb + [n])[..|nb|] == nb;
      } else {
        assert Neighbours(target, users) == nb + [];
        assert nb + [] == nb;
      }
    }
  }

  /**
   * When exactly one other user has positive similarity, the target receives that
   * user's purchases it does not own, once each, in that user's purchase order.
   */
  lemma SingleNeighbour(target: User, users: seq<User>, k: nat)
    requires k < |users|
    requires users[k].id != target.id && CalculateSimilarity(target, users[k]) > 0.0
    requires forall i :: 0 <= i < |users| && i != k && users[i].id != target.id ==>
      CalculateSimilarity(target, users[i]) == 0.0
    ensures Collaborative(target, users)
         == AddPurchases([], users[k].purchaseHistory, target.purchaseHistory)
  {
    var n := Neighbour(users[k], CalculateSimilarity(target, users[k]));
    var ranked := Ranked(target, users);
    PositiveNeighbours(target, users, k);
    SortPermutation(Neighbours(target, users), SimilarityKey);
    PositiveOfPermutation(Neighbours(target, users), ranked);
    SingletonMultiset(Positive(ranked), n);
    GatherPositive(ranked, target.purchaseHistory);
    GatherOne(n, target.purchaseHistory);
  }

  lemma PositiveOfPermutation(s: seq<Neighbour>, t: seq<Neighbour>)
    requires multiset(s) == multiset(t)
    ensures multiset(Positive(s)) == multiset(Positive(t))
  {
    forall m ensures multiset(Positive(s))[m] == multiset(Positive(t))[m] {
      PositiveMultiset(s, m);
      PositiveMultiset(t, m);
    }
  }

  lemma SingletonMultiset(p: seq<Neighbour>, n: Neighbour)
    requires multiset(p) == multiset([n])
    ensures p == [n]
  {
    assert |p| == |multiset(p)| == 1;
    assert p[0] in multiset(p);
  }

  lemma GatherOne(n: Neighbour, owned: seq<int>)
    requires n.similarity > 0.0
    ensures Gather([n], owned) == AddPurchases([], n.user.purchaseHistory, owned)
  {
    assert [n][..0] == [];
  }
}
