/**
 * The sample catalog and user profiles the application ships with, and what the
 * engine makes of them. Ratings are in tenths of a star.
 */
module SeedData {
  import opened Records
  import opened Similarity
  import Ranking
  import CF = CollaborativeFilter
  import CB = ContentFilter
  import H = HybridRanking

  const Products: seq<Item> := [
    Item(1, "Wireless Headphones", "Electronics", 2999, 45, "\U{1F3A7}"),
    Item(2, "Smart Watch", "Electronics", 5999, 47, "\U{231A}"),
    Item(3, "Laptop Backpack", "Accessories", 1499, 43, "\U{1F392}"),
    Item(4, "Bluetooth Speaker", "Electronics", 1999, 46, "\U{1F50A}"),
    Item(5, "Phone Case", "Accessories", 499, 42, "\U{1F4F1}"),
    Item(6, "USB-C Cable", "Accessories", 299, 44, "\U{1F50C}"),
    Item(7, "Portable Charger", "Electronics", 1299, 45, "\U{1F50B}"),
    Item(8, "Wireless Mouse", "Electronics", 899, 43, "\U{1F5B1}\U{FE0F}"),
    Item(9, "Keyboard", "Electronics", 2499, 46, "\U{2328}\U{FE0F}"),
    Item(10, "Laptop Stand", "Accessories", 1799, 44, "\U{1F4BB}")
  ]

  const Users: seq<User> := [
    User(1, "Rahul Sharma", [1, 2, 7], [4, 8, 9], ["Electronics"]),
    User(2, "Priya Patel", [3, 5, 6], [1, 2, 10], ["Accessories", "Electronics"]),
    User(3, "Amit Kumar", [8, 9], [2, 4, 7], ["Electronics"])
  ]

  /** No two sample users bought a common item. */
  lemma SamplePurchasesDisjoint(k: nat)
    requires k < |Users|
    ensures forall u :: u in Users && u.id != Users[k].id ==>
      forall x :: x in u.purchaseHistory ==> x !in Users[k].purchaseHistory
  {
  }

  /** The sample users' purchases are pairwise disjoint, so no user has a collaborative candidate. */
  lemma SampleCollaborativeEmpty(k: nat)
    requires k < |Users|
    ensures CF.Collaborative(Users[k], Users) == []
  {
    SamplePurchasesDisjoint(k);
    CF.NoOverlapNoCandidates(Users[k], Users);
  }

  /** Users 1 and 3 both buy Electronics yet are 0 similar: similarity is by item id. */
  lemma SampleSimilarityByIds()
    ensures CalculateSimilarity(Users[0], Users[2]) == 0.0
  {
    SamplePurchasesDisjoint(0);
  }

  lemma ProductIdsUnique()
    ensures UniqueIds(Products)
  {
  }

  /** No sample item has id 0, so the guard at line 125 only drops unresolved ids. */
  lemma SampleNoZeroId()
    ensures Find(Products, 0).None?
  {
    NoItemWithId(Products, 0);
  }

  lemma NoItemWithId(catalog: seq<Item>, x: int)
    requires forall i :: 0 <= i < |catalog| ==> catalog[i].id != x
    ensures Find(catalog, x).None?
  {
  }

  /** Each sample item is what its id finds. */
  lemma FindProduct(i: nat)
    requires i < |Products|
    ensures Find(Products, Products[i].id) == Some(Products[i])
  {
    ProductIdsUnique();
    FindMember(Products, Products[i]);
  }

  /** Counting one more purchase that resolves to `p`. */
  lemma TallyFound(catalog: seq<Item>, h: seq<int>, x: int, p: Item)
    requires Find(catalog, x) == Some(p)
    ensures var t := CB.Tally(catalog, h);
            CB.Tally(catalog, h + [x]) == t[p.category := CB.Count(t, p.category) + 1]
  {
    assert (h + [x])[..|h|] == h;
  }

  lemma TallyOne(catalog: seq<Item>, x: int, p: Item)
    requires Find(catalog, x) == Some(p)
    ensures CB.Tally(catalog, [x]) == map[p.category := 1]
  {
    assert [] + [x] == [x];
    TallyFound(catalog, [], x, p);
  }

  lemma TallyTwo(catalog: seq<Item>, x: int, y: int, p: Item, q: Item)
    requires Find(catalog, x) == Some(p) && Find(catalog, y) == Some(q) && q.category == p.category
    ensures CB.Tally(catalog, [x, y]) == map[p.category := 2]
  {
    assert [x] + [y] == [x, y];
    TallyOne(catalog, x, p);
    TallyFound(catalog, [x], y, q);
  }

  /** Three purchases that all resolve to items of one category count three. */
  lemma TallyThree(catalog: seq<Item>, x: int, y: int, z: int, p: Item, q: Item, o: Item)
    requires Find(catalog, x) == Some(p) && Find(catalog, y) == Some(q) && Find(catalog, z) == Some(o)
    requires q.category == p.category && o.category == p.category
    ensures CB.Tally(catalog, [x, y, z]) == map[p.category := 3]
  {
    assert [x, y] + [z] == [x, y, z];
    TallyTwo(catalog, x, y, p, q);
    TallyFound(catalog, [x, y], z, o);
  }

  lemma SampleTally()
    ensures CB.Tally(Products, [1, 2, 7]) == map["Electronics" := 3]
  {
    FindProduct(0);
    FindProduct(1);
    FindProduct(6);
    TallyThree(Products, 1, 2, 7, Products[0], Products[1], Products[6]);
  }

  lemma CandidateStep(ps: seq<Item>, i: nat, owned: seq<int>, tally: map<string, nat>)
    requires i < |ps|
    ensures CB.Candidates(ps[i..], owned, tally)
         == (if ps[i].id !in owned then [CB.Candidate(ps[i], CB.Score(tally, ps[i]))] else [])
            + CB.Candidates(ps[i + 1..], owned, tally)
  {
    assert ps[i..][1..] == ps[i + 1..];
  }

  /** Items with ids 1 to 5 when ids 1, 2 and 7 are owned. */
  lemma CandidatesOfFirstFive(qs: seq<Item>, tally: map<string, nat>)
    requires |qs| == 5
    requires forall i :: 0 <= i < 5 ==> qs[i].id == i + 1
    ensures CB.Candidates(qs, [1, 2, 7], tally) == [CB.Candidate(qs[2], CB.Score(tally, qs[2])), CB.Candidate(qs[3], CB.Score(tally, qs[3])), CB.Candidate(qs[4], CB.Score(tally, qs[4]))]
  {
    var o := [1, 2, 7];
    var c2, c3, c4 := CB.Candidate(qs[2], CB.Score(tally, qs[2])), CB.Candidate(qs[3], CB.Score(tally, qs[3])), CB.Candidate(qs[4], CB.Score(tally, qs[4]));
    assert qs[5..] == [];
    assert qs[0..] == qs;
    CandidateStep(qs, 4, o, tally);
    assert CB.Candidates(qs[4..], o, tally) == [c4];
    CandidateStep(qs, 3, o, tally);
    assert CB.Candidates(qs[3..], o, tally) == [c3, c4];
    CandidateStep(qs, 2, o, tally);
    assert CB.Candidates(qs[2..], o, tally) == [c2, c3, c4];
    CandidateStep(qs, 1, o, tally);
    assert CB.Candidates(qs[1..], o, tally) == [c2, c3, c4];
    CandidateStep(qs, 0, o, tally);
  }

  /** Items with ids 6 to 10 when ids 1, 2 and 7 are owned. */
  lemma CandidatesOfLastFive(qs: seq<Item>, tally: map<string, nat>)
    requires |qs| == 5
    requires forall i :: 0 <= i < 5 ==> qs[i].id == i + 6
    ensures CB.Candidates(qs, [1, 2, 7], tally) == [CB.Candidate(qs[0], CB.Score(tally, qs[0])), CB.Candidate(qs[2], CB.Score(tally, qs[2])), CB.Candidate(qs[3], CB.Score(tally, qs[3])), CB.Candidate(qs[4], CB.Score(tally, qs[4]))]
  {
    var o := [1, 2, 7];
    var c0, c2 := CB.Candidate(qs[0], CB.Score(tally, qs[0])), CB.Candidate(qs[2], CB.Score(tally, qs[2]));
    var c3, c4 := CB.Candidate(qs[3], CB.Score(tally, qs[3])), CB.Candidate(qs[4], CB.Score(tally, qs[4]));
    assert qs[5..] == [];
    assert qs[0..] == qs;
    CandidateStep(qs, 4, o, tally);
    assert CB.Candidates(qs[4..], o, tally) == [c4];
    CandidateStep(qs, 3, o, tally);
    assert CB.Candidates(qs[3..], o, tally) == [c3, c4];
    CandidateStep(qs, 2, o, tally);
    assert CB.Candidates(qs[2..], o, tally) == [c2, c3, c4];
    CandidateStep(qs, 1, o, tally);
    assert CB.Candidates(qs[1..], o, tally) == [c2, c3, c4];
    CandidateStep(qs, 0, o, tally);
  }

  /** The candidates among ten catalog items with ids 1 to 10 when ids 1, 2 and 7 are owned. */
  lemma CandidatesOfTen(ps: seq<Item>, tally: map<string, nat>)
    requires |ps| == 10
    requires forall i :: 0 <= i < 10 ==> ps[i].id == i + 1
    ensures CB.Candidates(ps, [1, 2, 7], tally) == [
      CB.Candidate(ps[2], CB.Score(tally, ps[2])), CB.Candidate(ps[3], CB.Score(tally, ps[3])),
      CB.Candidate(ps[4], CB.Score(tally, ps[4])), CB.Candidate(ps[5], CB.Score(tally, ps[5])),
      CB.Candidate(ps[7], CB.Score(tally, ps[7])), CB.Candidate(ps[8], CB.Score(tally, ps[8])),
      CB.Candidate(ps[9], CB.Score(tally, ps[9]))]
  {
    var c := seq(10, i requires 0 <= i < 10 => CB.Candidate(ps[i], CB.Score(tally, ps[i])));
    assert [c[2], c[3], c[4]] + [c[5], c[7], c[8], c[9]] == [c[2], c[3], c[4], c[5], c[7], c[8], c[9]];
    assert ps == ps[..5] + ps[5..];
    assert ps[..5][2] == ps[2] && ps[..5][3] == ps[3] && ps[..5][4] == ps[4];
    assert ps[5..][0] == ps[5] && ps[5..][2] == ps[7] && ps[5..][3] == ps[8] && ps[5..][4] == ps[9];
    CandidatesOfFirstFive(ps[..5], tally);
    CandidatesOfLastFive(ps[5..], tally);
    CB.CandidatesAppend(ps[..5], ps[5..], [1, 2, 7], tally);
  }

  /** The unowned items of user 1 in catalog order, scored. */
  lemma SampleCandidates()
    ensures CB.Candidates(Products, [1, 2, 7], map["Electronics" := 3]) == [
      CB.Candidate(Products[2], 0), CB.Candidate(Products[3], 138), CB.Candidate(Products[4], 0),
      CB.Candidate(Products[5], 0), CB.Candidate(Products[7], 129), CB.Candidate(Products[8], 138),
      CB.Candidate(Products[9], 0)]
  {
    var tally := map["Electronics" := 3];
    assert "Accessories" != "Electronics" by {
      assert "Accessories"[0] != "Electronics"[0];
    }
    assert CB.Score(tally, Products[2]) == 0 && CB.Score(tally, Products[3]) == 138;
    assert CB.Score(tally, Products[4]) == 0 && CB.Score(tally, Products[5]) == 0;
    assert CB.Score(tally, Products[7]) == 129 && CB.Score(tally, Products[8]) == 138;
    assert CB.Score(tally, Products[9]) == 0;
    CandidatesOfTen(Products, tally);
  }

  lemma SortCons<T>(x: T, rest: seq<T>, key: T -> real)
    ensures Ranking.SortDesc([x] + rest, key) == Ranking.Insert(x, Ranking.SortDesc(rest, key), key)
  {
    assert ([x] + rest)[1..] == rest;
  }

  lemma InsertFront<T>(x: T, s: seq<T>, key: T -> real)
    requires |s| == 0 || key(s[0]) <= key(x)
    ensures Ranking.Insert(x, s, key) == [x] + s
  {
  }

  lemma InsertPast<T>(x: T, y: T, s: seq<T>, key: T -> real)
    requires key(y) > key(x)
    ensures Ranking.Insert(x, [y] + s, key) == [y] + Ranking.Insert(x, s, key)
  {
    assert ([y] + s)[1..] == s;
  }

  // The insertion sort of the seven candidates, one insertion per lemma. Each
  // lemma states its sequence identities before calling the lemmas it builds on.

  lemma SortLastThree(e: CB.Candidate, f: CB.Candidate, g: CB.Candidate)
    requires e.score == 129 && f.score == 138 && g.score == 0
    ensures Ranking.SortDesc([e, f, g], CB.ScoreKey) == [f, e, g]
  {
    assert [g] + [] == [g];
    assert [f] + [g] == [f, g];
    assert [e] + [f, g] == [e, f, g];
    SortCons(g, [], CB.ScoreKey);
    InsertFront(g, [], CB.ScoreKey);
    SortCons(f, [g], CB.ScoreKey);
    InsertFront(f, [g], CB.ScoreKey);
    SortCons(e, [f, g], CB.ScoreKey);
    InsertPast(e, f, [g], CB.ScoreKey);
    InsertFront(e, [g], CB.ScoreKey);
  }

  lemma InsertFourth(d: CB.Candidate, e: CB.Candidate, f: CB.Candidate, g: CB.Candidate)
    requires d.score == 0 && e.score == 129 && f.score == 138 && g.score == 0
    ensures Ranking.Insert(d, [f, e, g], CB.ScoreKey) == [f, e, d, g]
  {
    assert [f, e, g] == [f] + [e, g];
    assert [e, g] == [e] + [g];
    assert [f] + ([e] + ([d] + [g])) == [f, e, d, g];
    InsertPast(d, f, [e, g], CB.ScoreKey);
    InsertPast(d, e, [g], CB.ScoreKey);
    InsertFront(d, [g], CB.ScoreKey);
  }

  lemma SortLastFour(d: CB.Candidate, e: CB.Candidate, f: CB.Candidate, g: CB.Candidate)
    requires d.score == 0 && e.score == 129 && f.score == 138 && g.score == 0
    ensures Ranking.SortDesc([d, e, f, g], CB.ScoreKey) == [f, e, d, g]
  {
    assert [d] + [e, f, g] == [d, e, f, g];
    SortLastThree(e, f, g);
    InsertFourth(d, e, f, g);
    SortCons(d, [e, f, g], CB.ScoreKey);
  }

  lemma InsertFifth(c: CB.Candidate, d: CB.Candidate, e: CB.Candidate, f: CB.Candidate, g: CB.Candidate)
    requires c.score == 0 && d.score == 0 && e.score == 129 && f.score == 138 && g.score == 0
    ensures Ranking.Insert(c, [f, e, d, g], CB.ScoreKey) == [f, e, c, d, g]
  {
    assert [f, e, d, g] == [f] + [e, d, g];
    assert [e, d, g] == [e] + [d, g];
    assert [f] + ([e] + ([c] + [d, g])) == [f, e, c, d, g];
    InsertPast(c, f, [e, d, g], CB.ScoreKey);
    InsertPast(c, e, [d, g], CB.ScoreKey);
    InsertFront(c, [d, g], CB.ScoreKey);
  }

  lemma SortLastFive(c: CB.Candidate, d: CB.Candidate, e: CB.Candidate, f: CB.Candidate, g: CB.Candidate)
    requires c.score == 0 && d.score == 0 && e.score == 129 && f.score == 138 && g.score == 0
    ensures Ranking.SortDesc([c, d, e, f, g], CB.ScoreKey) == [f, e, c, d, g]
  {
    assert [c] + [d, e, f, g] == [c, d, e, f, g];
    SortLastFour(d, e, f, g);
    InsertFifth(c, d, e, f, g);
    SortCons(c, [d, e, f, g], CB.ScoreKey);
  }

  lemma SortLastSix(b: CB.Candidate, c: CB.Candidate, d: CB.Candidate, e: CB.Candidate, f: CB.Candidate, g: CB.Candidate)
    requires b.score == 138 && c.score == 0 && d.score == 0 && e.score == 129 && f.score == 138 && g.score == 0
    ensures Ranking.SortDesc([b, c, d, e, f, g], CB.ScoreKey) == [b, f, e, c, d, g]
  {
    assert [b] + [c, d, e, f, g] == [b, c, d, e, f, g];
    assert [b] + [f, e, c, d, g] == [b, f, e, c, d, g];
    SortLastFive(c, d, e, f, g);
    InsertFront(b, [f, e, c, d, g], CB.ScoreKey);
    SortCons(b, [c, d, e, f, g], CB.ScoreKey);
  }

  lemma InsertSeventh(a: CB.Candidate, b: CB.Candidate, c: CB.Candidate, d: CB.Candidate,
                      e: CB.Candidate, f: CB.Candidate, g: CB.Candidate)
    requires a.score == 0 && b.score == 138 && c.score == 0 && d.score == 0
    requires e.score == 129 && f.score == 138 && g.score == 0
    ensures Ranking.Insert(a, [b, f, e, c, d, g], CB.ScoreKey) == [b, f, e, a, c, d, g]
  {
    assert [b, f, e, c, d, g] == [b] + [f, e, c, d, g];
    assert [f, e, c, d, g] == [f] + [e, c, d, g];
    assert [e, c, d, g] == [e] + [c, d, g];
    assert [b] + ([f] + ([e] + ([a] + [c, d, g]))) == [b, f, e, a, c, d, g];
    InsertPast(a, b, [f, e, c, d, g], CB.ScoreKey);
    InsertPast(a, f, [e, c, d, g], CB.ScoreKey);
    InsertPast(a, e, [c, d, g], CB.ScoreKey);
    InsertFront(a, [c, d, g], CB.ScoreKey);
  }

  /** The stable sort of those candidates. */
  lemma SampleSort(a: CB.Candidate, b: CB.Candidate, c: CB.Candidate, d: CB.Candidate,
                   e: CB.Candidate, f: CB.Candidate, g: CB.Candidate)
    requires a.score == 0 && b.score == 138 && c.score == 0 && d.score == 0
    requires e.score == 129 && f.score == 138 && g.score == 0
    ensures Ranking.SortDesc([a, b, c, d, e, f, g], CB.ScoreKey) == [b, f, e, a, c, d, g]
  {
    assert [a] + [b, c, d, e, f, g] == [a, b, c, d, e, f, g];
    SortLastSix(b, c, d, e, f, g);
    InsertSeventh(a, b, c, d, e, f, g);
    SortCons(a, [b, c, d, e, f, g], CB.ScoreKey);
  }

  /**
   * For user 1 (purchases 1, 2, 7: three Electronics items) the content-based top
   * five are items 4, 9, 8, 3, 5 with scores 13.8, 13.8, 12.9, 0 and 0: the two
   * 4.6-rated Electronics items in catalog order, then the 4.3-rated one, then the
   * first two unscored Accessories.
   */
  lemma SampleContentBased()
    ensures var r := CB.ContentBased(Products, Users[0]);
      && |r| == 5
      && [r[0].item.id, r[1].item.id, r[2].item.id, r[3].item.id, r[4].item.id] == [4, 9, 8, 3, 5]
      && [r[0].score, r[1].score, r[2].score, r[3].score, r[4].score] == [138, 138, 129, 0, 0]
  {
    SampleTally();
    SampleCandidates();
    SampleSort(CB.Candidate(Products[2], 0), CB.Candidate(Products[3], 138), CB.Candidate(Products[4], 0),
               CB.Candidate(Products[5], 0), CB.Candidate(Products[7], 129), CB.Candidate(Products[8], 138),
               CB.Candidate(Products[9], 0));
  }

  /** The content-only recommendation list built from five candidates with the sample ids. */
  lemma ContentOnlyFive(r: seq<H.Recommendation>, cb: seq<CB.Candidate>)
    requires |cb| == 5
    requires [cb[0].item.id, cb[1].item.id, cb[2].item.id, cb[3].item.id, cb[4].item.id] == [4, 9, 8, 3, 5]
    requires r == seq(|cb|, i requires 0 <= i < |cb| =>
                        H.Recommendation(cb[i].item, H.ContentBased, cb[i].score, H.ContentWeight))
    ensures |r| == 5
    ensures [r[0].item.id, r[1].item.id, r[2].item.id, r[3].item.id, r[4].item.id] == [4, 9, 8, 3, 5]
    ensures forall e :: e in r ==> e.source == H.ContentBased && e.totalScore == H.ContentWeight
  {
  }

  /**
   * User 1 therefore receives those five items, all tagged `Content-Based` with
   * total 0.4, in the same order.
   */
  lemma SampleRecommendations()
    ensures var r := H.Recommend(Products, Users, Users[0]);
      && |r| == 5
      && [r[0].item.id, r[1].item.id, r[2].item.id, r[3].item.id, r[4].item.id] == [4, 9, 8, 3, 5]
      && forall e :: e in r ==> e.source == H.ContentBased && e.totalScore == H.ContentWeight
  {
    SampleCollaborativeEmpty(0);
    SampleContentBased();
    ProductIdsUnique();
    H.RecommendContentOnly(Products, Users, Users[0]);
    ContentOnlyFive(H.Recommend(Products, Users, Users[0]), CB.ContentBased(Products, Users[0]));
  }

  /** On the shipped catalog the callback as written stores the same list as `Recommend`. */
  lemma SampleAsWritten(target: User)
    ensures H.RecommendAsWritten(Products, Users, target) == H.Recommend(Products, Users, target)
  {
    SampleNoZeroId();
  }
}
