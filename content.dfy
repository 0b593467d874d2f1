/**
 * `contentBasedFiltering`: tally the categories of the target's purchases that
 * the catalog knows, score every catalog item the target does not own as
 * `tally[category] × rating` (0 for a category never bought), stable-sort by
 * score, highest first, and keep the first five.
 *
 * Scores are in tenths: a rating of 4.6 is 46, so three Electronics purchases
 * give a 4.6-rated Electronics item the score 138.
 */
module ContentFilter {
  import opened Records
  import opened Ranking

  /** How many content-based candidates are kept (`slice(0, 5)`). */
  const MaxContent: nat := 5

  /** A catalog item with its content score (`{ ...product, score }`). */
  datatype Candidate = Candidate(item: Item, score: nat)

  function ScoreKey(c: Candidate): real
  {
    c.score as real
  }

  /** `categoryCount[category] || 0`. */
  function Count(tally: map<string, nat>, category: string): (n: nat)
    ensures category !in tally ==> n == 0
  {
    if category in tally then tally[category] else 0
  }

  /** The purchase `id` resolves to a catalog item of `category`. */
  predicate ResolvesTo(catalog: seq<Item>, id: int, category: string)
  {
    Find(catalog, id).Some? && Find(catalog, id).value.category == category
  }

  /** `categoryCount` after counting the purchases of `history`, ids missing from the catalog skipped. */
  function Tally(catalog: seq<Item>, history: seq<int>): (t: map<string, nat>)
    ensures forall c :: c in t ==> t[c] > 0
  {
    if |history| == 0 then map[]
    else
      var t := Tally(catalog, history[..|history| - 1]);
      match Find(catalog, history[|history| - 1])
      case None => t
      case Some(p) => t[p.category := Count(t, p.category) + 1]
  }

  /** The positions of `history` whose id resolves to an item of `category`. */
  function PositionsOf(catalog: seq<Item>, history: seq<int>, category: string): set<int>
  {
    set i | 0 <= i < |history| && ResolvesTo(catalog, history[i], category)
  }

  /**
   * The tally holds, for each category, the number of purchases that resolve to
   * an item of that category, and holds exactly the categories some purchase
   * resolves to.
   */
  lemma {:induction false} TallyCounts(catalog: seq<Item>, history: seq<int>, category: string)
    ensures Count(Tally(catalog, history), category) == |PositionsOf(catalog, history, category)|
    ensures category in Tally(catalog, history) <==> PositionsOf(catalog, history, category) != {}
  {
    if |history| > 0 {
      var n := |history| - 1;
      TallyCounts(catalog, history[..n], category);
      TallyStep(catalog, history, category);
      PositionsStep(catalog, history, category);
    }
  }

  lemma TallyStep(catalog: seq<Item>, history: seq<int>, category: string)
    requires |history| > 0
    ensures var n := |history| - 1;
            var t, t' := Tally(catalog, history[..n]), Tally(catalog, history);
            && Count(t', category) == Count(t, category) + (if ResolvesTo(catalog, history[n], category) then 1 else 0)
            && (category in t' <==> category in t || ResolvesTo(catalog, history[n], category))
  {
  }

  lemma PositionsStep(catalog: seq<Item>, history: seq<int>, category: string)
    requires |history| > 0
    ensures var n := |history| - 1;
            var before := PositionsOf(catalog, history[..n], category);
            && n !in before
            && PositionsOf(catalog, history, category)
               == before + (if ResolvesTo(catalog, history[n], category) then {n} else {})
  {
    var n := |history| - 1;
    var before := PositionsOf(catalog, history[..n], category);
    var after := PositionsOf(catalog, history, category);
    forall i | 0 <= i < n ensures (i in after <==> i in before) {
      assert history[..n][i] == history[i];
    }
  }

  /** The content score of `p` under `tally`. */
  function Score(tally: map<string, nat>, p: Item): (s: nat)
    ensures s == 0 <==> Count(tally, p.category) == 0 || p.rating == 0
  {
    Count(tally, p.category) * p.rating
  }

  /** The catalog items the target does not own, in catalog order, each with its score. */
  function Candidates(catalog: seq<Item>, owned: seq<int>, tally: map<string, nat>): (r: seq<Candidate>)
    ensures |r| <= |catalog|
  {
    if |catalog| == 0 then []
    else
      var p := catalog[0];
      (if p.id !in owned then [Candidate(p, Score(tally, p))] else []) + Candidates(catalog[1..], owned, tally)
  }

  /** Exactly the unowned catalog items are candidates, each with its score. */
  lemma {:induction false} CandidatesMembers(catalog: seq<Item>, owned: seq<int>, tally: map<string, nat>)
    ensures forall c :: c in Candidates(catalog, owned, tally) <==>
      c.item in catalog && c.item.id !in owned && c.score == Score(tally, c.item)
  {
    if |catalog| > 0 {
      CandidatesMembers(catalog[1..], owned, tally);
      assert catalog == [catalog[0]] + catalog[1..];
    }
  }

  /** Scoring is item by item: the candidates of a split catalog are those of its parts. */
  lemma {:induction false} CandidatesAppend(a: seq<Item>, b: seq<Item>, owned: seq<int>, tally: map<string, nat>)
    ensures Candidates(a + b, owned, tally) == Candidates(a, owned, tally) + Candidates(b, owned, tally)
  {
    if |a| > 0 {
      assert (a + b)[0] == a[0];
      assert (a + b)[1..] == a[1..] + b;
      CandidatesAppend(a[1..], b, owned, tally);
    } else {
      assert a + b == b;
    }
  }

  /** `contentBasedFiltering(user)` over the catalog `catalog`. */
  function ContentBased(catalog: seq<Item>, user: User): (r: seq<Candidate>)
    ensures |r| <= MaxContent
  {
    var tally := Tally(catalog, user.purchaseHistory);
    Take(SortDesc(Candidates(catalog, user.purchaseHistory, tally), ScoreKey), MaxContent)
  }

  /** The category-count loop followed by the score/sort/slice pipeline. */
  method ContentBasedFiltering(catalog: seq<Item>, user: User) returns (recs: seq<Candidate>)
    ensures recs == ContentBased(catalog, user)
  {
    var history := user.purchaseHistory;
    var categoryCount: map<string, nat> := map[];
    var i := 0;
    while i < |history|
      invariant 0 <= i <= |history|
      invariant categoryCount == Tally(catalog, history[..i])
    {
      assert history[..i + 1][..i] == history[..i];
      match Find(catalog, history[i]) {
        case None =>
        case Some(p) =>
          categoryCount := categoryCount[p.category := Count(categoryCount, p.category) + 1];
      }
      i := i + 1;
    }
    assert history[..i] == history;
    var ranked := SortDesc(Candidates(catalog, history, categoryCount), ScoreKey);
    recs := Take(ranked, MaxContent);
  }

  /**
   * At most five candidates (fewer only when fewer items are unowned), none of
   * them owned, each a catalog item carrying `tally[category] × rating`, in
   * non-increasing score order, and items of equal score in catalog order.
   */
  lemma ContentBasedShape(catalog: seq<Item>, user: User, k: real)
    ensures var r := ContentBased(catalog, user);
            var all := Candidates(catalog, user.purchaseHistory, Tally(catalog, user.purchaseHistory));
            && |r| <= MaxContent
            && (|r| < MaxContent ==> |r| == |all|)
            && (forall c :: c in r ==> c.item in catalog && c.item.id !in user.purchaseHistory)
            && (forall c :: c in r ==>
                  c.score == Count(Tally(catalog, user.purchaseHistory), c.item.category) * c.item.rating)
            && SortedDesc(r, ScoreKey)
            && WithKey(r, ScoreKey, k) <= WithKey(all, ScoreKey, k)
  {
    var all := Candidates(catalog, user.purchaseHistory, Tally(catalog, user.purchaseHistory));
    var sorted := SortDesc(all, ScoreKey);
    SortPermutation(all, ScoreKey);
    CandidatesMembers(catalog, user.purchaseHistory, Tally(catalog, user.purchaseHistory));
    TopSortedStable(all, ScoreKey, MaxContent, k);
    forall c | c in ContentBased(catalog, user) ensures c in all {
      assert c in sorted;
      assert c in multiset(all);
    }
  }

  /**
   * Every unowned catalog item is eligible, a zero-score one included: it is
   * either among the five kept or scores no higher than each kept candidate.
   */
  lemma ContentBasedComplete(catalog: seq<Item>, user: User, p: Item)
    requires p in catalog && p.id !in user.purchaseHistory
    ensures var c := Candidate(p, Score(Tally(catalog, user.purchaseHistory), p));
            c in ContentBased(catalog, user)
            || forall d :: d in ContentBased(catalog, user) ==> d.score >= c.score
  {
    var tally := Tally(catalog, user.purchaseHistory);
    var c := Candidate(p, Score(tally, p));
    CandidatesMembers(catalog, user.purchaseHistory, tally);
    TopComplete(Candidates(catalog, user.purchaseHistory, tally), ScoreKey, MaxContent, c);
  }

  function CandidateId(c: Candidate): int
  {
    c.item.id
  }

  lemma {:induction false} CandidatesDistinct(catalog: seq<Item>, owned: seq<int>, tally: map<string, nat>)
    requires UniqueIds(catalog)
    ensures DistinctBy(Candidates(catalog, owned, tally), CandidateId)
  {
    if |catalog| > 0 {
      var rest := catalog[1..];
      UniqueIdsTail(catalog);
      CandidatesDistinct(rest, owned, tally);
      var tail := Candidates(rest, owned, tally);
      TailIdsDiffer(catalog, owned, tally);
      var head := if catalog[0].id !in owned then [Candidate(catalog[0], Score(tally, catalog[0]))] else [];
      PrependDistinct(head, tail);
    }
  }

  lemma UniqueIdsTail(catalog: seq<Item>)
    requires |catalog| > 0 && UniqueIds(catalog)
    ensures UniqueIds(catalog[1..])
  {
    var rest := catalog[1..];
    forall i, j | 0 <= i < j < |rest| ensures rest[i].id != rest[j].id {
      assert rest[i] == catalog[i + 1] && rest[j] == catalog[j + 1];
    }
  }

  lemma TailIdsDiffer(catalog: seq<Item>, owned: seq<int>, tally: map<string, nat>)
    requires |catalog| > 0 && UniqueIds(catalog)
    ensures forall c :: c in Candidates(catalog[1..], owned, tally) ==> c.item.id != catalog[0].id
  {
    var rest := catalog[1..];
    CandidatesMembers(rest, owned, tally);
    forall c | c in Candidates(rest, owned, tally) ensures c.item.id != catalog[0].id {
      assert c.item in rest;
      var m :| 0 <= m < |rest| && rest[m] == c.item;
      assert catalog[m + 1] == c.item;
    }
  }

  lemma PrependDistinct(head: seq<Candidate>, tail: seq<Candidate>)
    requires |head| <= 1
    requires DistinctBy(tail, CandidateId)
    requires forall c, d :: c in head && d in tail ==> c.item.id != d.item.id
    ensures DistinctBy(head + tail, CandidateId)
  {
    var r := head + tail;
    forall i, j | 0 <= i < j < |r| ensures CandidateId(r[i]) != CandidateId(r[j]) {
      if i >= |head| {
        assert r[i] == tail[i - |head|] && r[j] == tail[j - |head|];
      } else {
        assert r[i] == head[0] && r[j] == tail[j - 1];
      }
    }
  }

  /** With a catalog of unique ids, no item is proposed twice. */
  lemma ContentBasedDistinct(catalog: seq<Item>, user: User)
    requires UniqueIds(catalog)
    ensures DistinctBy(ContentBased(catalog, user), CandidateId)
  {
    var all := Candidates(catalog, user.purchaseHistory, Tally(catalog, user.purchaseHistory));
    CandidatesDistinct(catalog, user.purchaseHistory, Tally(catalog, user.purchaseHistory));
    SortDistinct(all, ScoreKey, CandidateId);
  }
}
