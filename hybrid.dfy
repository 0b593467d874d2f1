/**
 * The merge step of `generateRecommendations`: collaborative ids that the
 * catalog knows enter an insertion-ordered map as `Collaborative` entries of
 * weight 0.6; each content-based candidate then either turns the entry with its
 * id into a `Hybrid` one (0.6 + 0.4) or is appended as `Content-Based` (0.4);
 * the map's values are stable-sorted by total score, highest first, and the first
 * six are kept.
 *
 * Weights and scores are in tenths: 0.6 is 6, 0.4 is 4 and their sum 10.
 */
module HybridRanking {
  import opened Records
  import opened Ranking
  import CF = CollaborativeFilter
  import CB = ContentFilter

  /** The provenance tag: 'Collaborative', 'Content-Based' or 'Hybrid'. */
  datatype Source = Collaborative | ContentBased | Hybrid

  /** The weight of a collaborative hit, 0.6. */
  const CollaborativeWeight: nat := 6
  /** The weight of a content-based hit, 0.4. */
  const ContentWeight: nat := 4
  /** How many recommendations are returned (`slice(0, 6)`). */
  const MaxRecommendations: nat := 6

  /**
   * A returned entry: the item, its tag, the `score` it was created with and the
   * `totalScore` it is ranked by.
   */
  datatype Recommendation = Recommendation(item: Item, source: Source, score: nat, totalScore: nat)

  function TotalKey(r: Recommendation): real
  {
    r.totalScore as real
  }

  function RecommendationId(r: Recommendation): int
  {
    r.item.id
  }

  /** `combinedMap`: keys in insertion order and the entry stored under each. */
  datatype Combined = Combined(keys: seq<int>, values: map<int, Recommendation>)

  /** Keys are distinct, are exactly the map's domain, and each is its entry's item id. */
  ghost predicate Valid(c: Combined)
  {
    && (forall i, j :: 0 <= i < j < |c.keys| ==> c.keys[i] != c.keys[j])
    && (forall i :: 0 <= i < |c.keys| ==> c.keys[i] in c.values)
    && (forall k :: k in c.values ==> k in c.keys)
    && (forall k :: k in c.values ==> c.values[k].item.id == k)
  }

  /** `new Map()`. */
  const Empty: Combined := Combined([], map[])

  /**
   * `combinedMap.set(v.id, v)`: the entry is replaced where its key already is,
   * or the key is appended at the end.
   */
  function Put(c: Combined, v: Recommendation): (r: Combined)
    requires Valid(c)
    ensures Valid(r)
    ensures c.keys <= r.keys
    ensures r.values == c.values[v.item.id := v]
  {
    if v.item.id in c.values then Combined(c.keys, c.values[v.item.id := v])
    else Combined(c.keys + [v.item.id], c.values[v.item.id := v])
  }

  /** `Array.from(combinedMap.values())`: the entries in key insertion order. */
  function Values(c: Combined): (r: seq<Recommendation>)
    requires Valid(c)
    ensures |r| == |c.keys|
    ensures forall i :: 0 <= i < |r| ==> r[i] == c.values[c.keys[i]]
    ensures forall e :: e in r <==> exists k :: k in c.values && c.values[k] == e
    ensures DistinctBy(r, RecommendationId)
  {
    var r := seq(|c.keys|, i requires 0 <= i < |c.keys| => c.values[c.keys[i]]);
    assert forall e :: e in r <==> exists k :: k in c.values && c.values[k] == e by {
      forall e | e in r ensures exists k :: k in c.values && c.values[k] == e {
        var i :| 0 <= i < |r| && r[i] == e;
        assert c.values[c.keys[i]] == e;
      }
      forall k | k in c.values ensures c.values[k] in r {
        var i :| 0 <= i < |c.keys| && c.keys[i] == k;
        assert r[i] == c.values[k];
      }
    }
    r
  }

  /** The ids of `ids` that the catalog knows. */
  function Found(catalog: seq<Item>, ids: seq<int>): (r: set<int>)
    ensures forall x :: x in r <==> x in ids && Find(catalog, x).Some?
  {
    if |ids| == 0 then {}
    else
      var x := ids[|ids| - 1];
      assert ids == ids[..|ids| - 1] + [x];
      Found(catalog, ids[..|ids| - 1]) + (if Find(catalog, x).Some? then {x} else {})
  }

  /** The item ids of the candidates. */
  function CandidateIds(cands: seq<CB.Candidate>): (r: set<int>)
    ensures forall x :: x in r <==> exists c :: c in cands && c.item.id == x
  {
    if |cands| == 0 then {}
    else
      var c := cands[|cands| - 1];
      assert cands == cands[..|cands| - 1] + [c];
      CandidateIds(cands[..|cands| - 1]) + {c.item.id}
  }

  /** Dropping the last id of a sequence without repeats leaves one without it. */
  lemma DistinctLast(ids: seq<int>)
    requires |ids| > 0
    ensures CF.Distinct(ids) ==> CF.Distinct(ids[..|ids| - 1]) && ids[|ids| - 1] !in ids[..|ids| - 1]
  {
  }

  /** The elements of `s` that satisfy `p`, in their order in `s`. */
  function Filter(s: seq<int>, p: int -> bool): (r: seq<int>)
    ensures forall x :: x in r <==> x in s && p(x)
    ensures CF.Distinct(s) ==> CF.Distinct(r)
  {
    if |s| == 0 then []
    else
      var n := |s| - 1;
      assert s == s[..n] + [s[n]];
      DistinctLast(s);
      Filter(s[..n], p) + (if p(s[n]) then [s[n]] else [])
  }

  /** Filtering keeps the order of a sequence without repeats. */
  lemma {:induction false} FilterOrder(s: seq<int>, p: int -> bool)
    requires CF.Distinct(s)
    ensures forall i, j :: 0 <= i < j < |Filter(s, p)| ==>
      CF.IndexOf(s, Filter(s, p)[i]) < CF.IndexOf(s, Filter(s, p)[j])
  {
    if |s| > 0 {
      var n := |s| - 1;
      var prev := Filter(s[..n], p);
      var r := Filter(s, p);
      assert CF.Distinct(s[..n]);
      FilterOrder(s[..n], p);
      forall i | 0 <= i < |prev|
        ensures prev[i] in s && CF.IndexOf(s, prev[i]) == CF.IndexOf(s[..n], prev[i]) < n
      {
        CF.IndexOfPrefix(s, n, prev[i]);
      }
      if p(s[n]) {
        assert r == prev + [s[n]];
        assert s[n] !in s[..n];
        CF.IndexOfUnique(s, s[n], n);
        forall i, j | 0 <= i < j < |r| ensures CF.IndexOf(s, r[i]) < CF.IndexOf(s, r[j]) {
          if j == |prev| {
            assert r[j] == s[n] && r[i] == prev[i];
          } else {
            assert r[i] == prev[i] && r[j] == prev[j];
          }
        }
      } else {
        assert r == prev;
      }
    }
  }

  /** The ids the catalog resolves. */
  function ResolvesIn(catalog: seq<Item>): int -> bool
  {
    x => Find(catalog, x).Some?
  }

  /** The ids the guard `if (p.id)` lets through: resolved, and not 0. */
  function PassesGuard(catalog: seq<Item>): int -> bool
  {
    x => x != 0 && Find(catalog, x).Some?
  }

  /** The ids that are not in `keys`. */
  function Outside(keys: set<int>): int -> bool
  {
    x => x !in keys
  }

  /** The candidates' item ids, in their order. */
  function IdsOf(cands: seq<CB.Candidate>): (r: seq<int>)
    ensures |r| == |cands|
    ensures forall i :: 0 <= i < |cands| ==> r[i] == cands[i].item.id
  {
    seq(|cands|, i requires 0 <= i < |cands| => cands[i].item.id)
  }

  /**
   * The first loop: every collaborative id the catalog resolves is stored as a
   * `Collaborative` entry of weight 0.6 for its item; unresolvable ids are dropped.
   */
  function Seed(catalog: seq<Item>, ids: seq<int>): (c: Combined)
    ensures Valid(c)
    ensures c.values.Keys == Found(catalog, ids)
    ensures forall k :: k in c.values ==>
      c.values[k] == Recommendation(Find(catalog, k).value, Collaborative, CollaborativeWeight, CollaborativeWeight)
    ensures CF.Distinct(ids) ==> c.keys == Filter(ids, ResolvesIn(catalog))
  {
    if |ids| == 0 then Empty
    else
      var init, x := ids[..|ids| - 1], ids[|ids| - 1];
      var c := Seed(catalog, init);
      assert ids == init + [x];
      DistinctLast(ids);
      match Find(catalog, x)
      case None => c
      case Some(p) => Put(c, Recommendation(p, Collaborative, CollaborativeWeight, CollaborativeWeight))
  }

  /**
   * The second loop: a candidate whose id is already a key turns that entry into
   * a `Hybrid` one and adds 0.4 to its total; any other candidate is appended as
   * a `Content-Based` entry of total 0.4 carrying its content score.
   */
  function AddContent(c: Combined, cands: seq<CB.Candidate>): (r: Combined)
    requires Valid(c)
    ensures Valid(r)
    ensures c.keys <= r.keys
  {
    if |cands| == 0 then c
    else
      var m := AddContent(c, cands[..|cands| - 1]);
      var p := cands[|cands| - 1];
      if p.item.id in m.values then
        var existing := m.values[p.item.id];
        Put(m, existing.(source := Hybrid, totalScore := existing.totalScore + ContentWeight))
      else
        Put(m, Recommendation(p.item, ContentBased, p.score, ContentWeight))
  }

  /** The merged ids are the seeded ones and the candidates'. */
  lemma {:induction false} AddContentKeys(c: Combined, cands: seq<CB.Candidate>)
    requires Valid(c)
    ensures AddContent(c, cands).values.Keys == c.values.Keys + CandidateIds(cands)
  {
    if |cands| > 0 {
      AddContentKeys(c, cands[..|cands| - 1]);
    }
  }

  lemma IdsOfInit(cands: seq<CB.Candidate>)
    requires |cands| > 0
    ensures IdsOf(cands) == IdsOf(cands[..|cands| - 1]) + [cands[|cands| - 1].item.id]
  {
  }

  /** One candidate more: its id is appended exactly when it is not a key yet. */
  lemma AddContentStep(c: Combined, cands: seq<CB.Candidate>)
    requires Valid(c) && |cands| > 0
    ensures var m, x := AddContent(c, cands[..|cands| - 1]), cands[|cands| - 1].item.id;
      AddContent(c, cands).keys == m.keys + (if x in m.values then [] else [x])
  {
  }

  /**
   * Folding candidates with distinct ids appends, in candidate order, the ids
   * that were not keys yet; the keys already present keep their places.
   */
  lemma {:induction false} AddContentOrder(c: Combined, cands: seq<CB.Candidate>)
    requires Valid(c)
    ensures DistinctBy(cands, CB.CandidateId) ==>
      AddContent(c, cands).keys == c.keys + Filter(IdsOf(cands), Outside(c.values.Keys))
  {
    if |cands| > 0 && DistinctBy(cands, CB.CandidateId) {
      var n := |cands| - 1;
      var init, x := cands[..n], cands[n].item.id;
      var out := Outside(c.values.Keys);
      DistinctInit(cands);
      AddContentOrder(c, init);
      AddContentKeys(c, init);
      AddContentStep(c, cands);
      IdsOfInit(cands);
      var m := AddContent(c, init);
      assert x in m.values <==> x in c.values;
      var tail := if x in c.values then [] else [x];
      assert Filter(IdsOf(cands), out) == Filter(IdsOf(init), out) + tail;
      assert AddContent(c, cands).keys == (c.keys + Filter(IdsOf(init), out)) + tail;
    }
  }

  /**
   * `combinedMap` after both loops: the resolved collaborative ids in their
   * order, then the ids of the content candidates not among them, in candidate
   * order.
   */
  function Merge(catalog: seq<Item>, cfIds: seq<int>, cands: seq<CB.Candidate>): (c: Combined)
    ensures Valid(c)
    ensures CF.Distinct(cfIds) && DistinctBy(cands, CB.CandidateId) ==>
      c.keys == Filter(cfIds, ResolvesIn(catalog)) + Filter(IdsOf(cands), Outside(Found(catalog, cfIds)))
  {
    AddContentOrder(Seed(catalog, cfIds), cands);
    AddContent(Seed(catalog, cfIds), cands)
  }

  /** Sorted by total score, highest first, ties in insertion order; first six. */
  function Final(c: Combined): (r: seq<Recommendation>)
    requires Valid(c)
    ensures |r| == if |c.keys| < MaxRecommendations then |c.keys| else MaxRecommendations
  {
    Take(SortDesc(Values(c), TotalKey), MaxRecommendations)
  }

  /** The recommendations `generateRecommendations(target)` stores. */
  function Recommend(catalog: seq<Item>, users: seq<User>, target: User): (r: seq<Recommendation>)
    ensures |r| <= MaxRecommendations
  {
    Final(Merge(catalog, CF.Collaborative(target, users), CB.ContentBased(catalog, target)))
  }

  /**
   * The first loop (lines 117-126) as written: resolve each collaborative id and
   * store the item unless the guard `if (p.id)` fails, which it does for an id the
   * catalog lacks and for an item whose id is 0.
   */
  method SeedMap(catalog: seq<Item>, cfRecommendations: seq<int>) returns (combinedMap: Combined)
    ensures combinedMap == SeedAsWritten(catalog, cfRecommendations)
    ensures Find(catalog, 0).None? ==> combinedMap == Seed(catalog, cfRecommendations)
  {
    combinedMap := Empty;
    var i := 0;
    while i < |cfRecommendations|
      invariant 0 <= i <= |cfRecommendations|
      invariant combinedMap == SeedAsWritten(catalog, cfRecommendations[..i])
    {
      assert cfRecommendations[..i + 1][..i] == cfRecommendations[..i];
      match Find(catalog, cfRecommendations[i]) {
        case None =>
        case Some(p) =>
          if p.id != 0 {
            combinedMap := Put(combinedMap, Recommendation(p, Collaborative, CollaborativeWeight, CollaborativeWeight));
          }
      }
      i := i + 1;
    }
    assert cfRecommendations[..i] == cfRecommendations;
    SeedAsWrittenAgrees(catalog, cfRecommendations);
  }

  /** The second loop (lines 128-139): fold the content-based candidates into the map. */
  method FoldContent(seeded: Combined, cbfRecommendations: seq<CB.Candidate>) returns (combinedMap: Combined)
    requires Valid(seeded)
    ensures combinedMap == AddContent(seeded, cbfRecommendations)
  {
    combinedMap := seeded;
    var j := 0;
    while j < |cbfRecommendations|
      invariant 0 <= j <= |cbfRecommendations|
      invariant combinedMap == AddContent(seeded, cbfRecommendations[..j])
    {
      var p := cbfRecommendations[j];
      assert cbfRecommendations[..j + 1][..j] == cbfRecommendations[..j];
      if p.item.id in combinedMap.values {
        var existing := combinedMap.values[p.item.id];
        combinedMap := Put(combinedMap, existing.(source := Hybrid, totalScore := existing.totalScore + ContentWeight));
      } else {
        combinedMap := Put(combinedMap, Recommendation(p.item, ContentBased, p.score, ContentWeight));
      }
      j := j + 1;
    }
    assert cbfRecommendations[..j] == cbfRecommendations;
  }

  /** The recommendations the delayed callback stores, with the line-125 guard as written. */
  function RecommendAsWritten(catalog: seq<Item>, users: seq<User>, target: User): (r: seq<Recommendation>)
    ensures Find(catalog, 0).None? ==> r == Recommend(catalog, users, target)
  {
    SeedAsWrittenAgrees(catalog, CF.Collaborative(target, users));
    Final(AddContent(SeedAsWritten(catalog, CF.Collaborative(target, users)), CB.ContentBased(catalog, target)))
  }

  /**
   * The body of the delayed callback, without the UI state updates. On a catalog
   * without an item of id 0 it stores exactly `Recommend`.
   */
  method GenerateRecommendations(catalog: seq<Item>, users: seq<User>, user: User)
    returns (recs: seq<Recommendation>)
    ensures recs == RecommendAsWritten(catalog, users, user)
    ensures Find(catalog, 0).None? ==> recs == Recommend(catalog, users, user)
  {
    var cfRecommendations := CF.CollaborativeFiltering(user, users);
    var cbfRecommendations := CB.ContentBasedFiltering(catalog, user);
    var seeded := SeedMap(catalog, cfRecommendations);
    var combinedMap := FoldContent(seeded, cbfRecommendations);
    recs := Take(SortDesc(Values(combinedMap), TotalKey), MaxRecommendations);
  }

  /** Every entry is a plain collaborative one. */
  ghost predicate AllCollaborative(c: Combined)
  {
    forall k :: k in c.values ==>
      c.values[k].source == Collaborative && c.values[k].totalScore == CollaborativeWeight
  }

  lemma DistinctInit(cands: seq<CB.Candidate>)
    requires |cands| > 0 && DistinctBy(cands, CB.CandidateId)
    ensures DistinctBy(cands[..|cands| - 1], CB.CandidateId)
    ensures cands[|cands| - 1].item.id !in CandidateIds(cands[..|cands| - 1])
  {
    var init := cands[..|cands| - 1];
    forall i, j | 0 <= i < j < |init| ensures CB.CandidateId(init[i]) != CB.CandidateId(init[j]) {
      assert init[i] == cands[i] && init[j] == cands[j];
    }
    forall c | c in init ensures c.item.id != cands[|cands| - 1].item.id {
      var i :| 0 <= i < |init| && init[i] == c;
      assert CB.CandidateId(cands[i]) != CB.CandidateId(cands[|cands| - 1]);
    }
  }

  /**
   * Folding distinct candidates into collaborative entries: an entry whose id is
   * also a candidate becomes `Hybrid` with 0.6 + 0.4, the other collaborative
   * entries are untouched, and each new key holds a `Content-Based` entry of 0.4
   * built from its candidate.
   */
  lemma {:induction false} AddContentSources(c: Combined, cands: seq<CB.Candidate>)
    requires Valid(c) && AllCollaborative(c)
    requires DistinctBy(cands, CB.CandidateId)
    ensures var r := AddContent(c, cands);
      forall k :: k in r.values ==>
        && (k in c.values && k in CandidateIds(cands) ==>
              r.values[k] == c.values[k].(source := Hybrid, totalScore := CollaborativeWeight + ContentWeight))
        && (k in c.values && k !in CandidateIds(cands) ==> r.values[k] == c.values[k])
        && (k !in c.values ==> exists p :: p in cands && p.item.id == k
                                && r.values[k] == Recommendation(p.item, ContentBased, p.score, ContentWeight))
  {
    forall k | k in AddContent(c, cands).values {
      AddContentSourceOf(c, cands, k);
    }
  }

  /** `AddContentSources` for one key, by induction on the candidates. */
  lemma {:induction false} AddContentSourceOf(c: Combined, cands: seq<CB.Candidate>, k: int)
    requires Valid(c) && AllCollaborative(c)
    requires DistinctBy(cands, CB.CandidateId)
    requires k in AddContent(c, cands).values
    ensures var r := AddContent(c, cands);
        && (k in c.values && k in CandidateIds(cands) ==>
              r.values[k] == c.values[k].(source := Hybrid, totalScore := CollaborativeWeight + ContentWeight))
        && (k in c.values && k !in CandidateIds(cands) ==> r.values[k] == c.values[k])
        && (k !in c.values ==> exists p :: p in cands && p.item.id == k
                                && r.values[k] == Recommendation(p.item, ContentBased, p.score, ContentWeight))
  {
    if |cands| > 0 {
      var init, p := cands[..|cands| - 1], cands[|cands| - 1];
      assert cands == init + [p];
      DistinctInit(cands);
      AddContentKeys(c, init);
      var m := AddContent(c, init);
      var r := AddContent(c, cands);
      assert CandidateIds(cands) == CandidateIds(init) + {p.item.id};
      if k != p.item.id {
        assert r.values[k] == m.values[k];
        AddContentSourceOf(c, init, k);
        if k !in c.values {
          var q :| q in init && q.item.id == k
                   && m.values[k] == Recommendation(q.item, ContentBased, q.score, ContentWeight);
          assert q in cands;
        }
      } else if k in m.values {
        assert k in c.values && k !in CandidateIds(init);
        AddContentSourceOf(c, init, k);
        assert r.values[k] == m.values[k].(source := Hybrid, totalScore := m.values[k].totalScore + ContentWeight);
      } else {
        assert k !in c.values;
        assert r.values[k] == Recommendation(p.item, ContentBased, p.score, ContentWeight);
        assert p in cands;
      }
    }
  }

  lemma MergeSources(catalog: seq<Item>, cfIds: seq<int>, cands: seq<CB.Candidate>)
    requires DistinctBy(cands, CB.CandidateId)
    ensures var m := Merge(catalog, cfIds, cands);
            var f, c := Found(catalog, cfIds), CandidateIds(cands);
      && m.values.Keys == f + c
      && (forall k :: k in m.values ==>
            && (m.values[k].source == Hybrid <==> k in f && k in c)
            && (m.values[k].source == Collaborative <==> k in f && k !in c)
            && (m.values[k].source == ContentBased <==> k !in f)
            && m.values[k].totalScore
               == (if k in f then CollaborativeWeight else 0) + (if k in c then ContentWeight else 0)
            && (k in f ==> m.values[k].item == Find(catalog, k).value))
  {
    var s := Seed(catalog, cfIds);
    var m := Merge(catalog, cfIds, cands);
    var f, c := Found(catalog, cfIds), CandidateIds(cands);
    AddContentSources(s, cands);
    AddContentKeys(s, cands);
    forall k | k in m.values
      ensures m.values[k].source == Hybrid <==> k in f && k in c
      ensures m.values[k].source == Collaborative <==> k in f && k !in c
      ensures m.values[k].source == ContentBased <==> k !in f
      ensures m.values[k].totalScore
              == (if k in f then CollaborativeWeight else 0) + (if k in c then ContentWeight else 0)
      ensures k in f ==> m.values[k].item == Find(catalog, k).value
    {
      if k !in f {
        var q :| q in cands && q.item.id == k
                 && m.values[k] == Recommendation(q.item, ContentBased, q.score, ContentWeight);
      }
    }
  }

  /** In the merged map every collaborative key precedes every content-only key. */
  lemma MergeOrder(catalog: seq<Item>, cfIds: seq<int>, cands: seq<CB.Candidate>)
    ensures var m := Merge(catalog, cfIds, cands);
            var f := Found(catalog, cfIds);
      forall i, j :: 0 <= i < |m.keys| && 0 <= j < |m.keys| && m.keys[i] in f && m.keys[j] !in f ==> i < j
  {
    var s := Seed(catalog, cfIds);
    var m := Merge(catalog, cfIds, cands);
    forall i, j | 0 <= i < |m.keys| && 0 <= j < |m.keys| && m.keys[i] in s.values && m.keys[j] !in s.values
      ensures i < j
    {
    }
  }

  /** An entry of the result is an entry of the merged map, stored under its own id. */
  lemma RecommendEntry(catalog: seq<Item>, users: seq<User>, target: User, e: Recommendation)
    requires e in Recommend(catalog, users, target)
    ensures var m := Merge(catalog, CF.Collaborative(target, users), CB.ContentBased(catalog, target));
            e.item.id in m.values && m.values[e.item.id] == e
  {
    var m := Merge(catalog, CF.Collaborative(target, users), CB.ContentBased(catalog, target));
    var sorted := SortDesc(Values(m), TotalKey);
    SortPermutation(Values(m), TotalKey);
    assert e in sorted;
    assert e in multiset(Values(m));
    assert e in Values(m);
  }

  /**
   * At most six entries, by non-increasing total score, no id twice, none the
   * user already bought, each found collaboratively or by content, and entries of
   * equal total score in the merged map's insertion order.
   */
  lemma RecommendShape(catalog: seq<Item>, users: seq<User>, target: User, s: real)
    ensures var r := Recommend(catalog, users, target);
      && |r| <= MaxRecommendations
      && (|r| < MaxRecommendations
          ==> |r| == |Merge(catalog, CF.Collaborative(target, users), CB.ContentBased(catalog, target)).keys|)
      && SortedDesc(r, TotalKey)
      && DistinctBy(r, RecommendationId)
      && (forall e :: e in r ==> e.item.id !in target.purchaseHistory)
      && (forall e :: e in r ==> e.item.id in CF.Collaborative(target, users)
                                 || e.item.id in CandidateIds(CB.ContentBased(catalog, target)))
      && WithKey(r, TotalKey, s)
         <= WithKey(Values(Merge(catalog, CF.Collaborative(target, users), CB.ContentBased(catalog, target))), TotalKey, s)
  {
    var cf, cb := CF.Collaborative(target, users), CB.ContentBased(catalog, target);
    var m := Merge(catalog, cf, cb);
    var r := Recommend(catalog, users, target);
    var sorted := SortDesc(Values(m), TotalKey);
    TopSortedStable(Values(m), TotalKey, MaxRecommendations, s);
    SortDistinct(Values(m), TotalKey, RecommendationId);
    assert DistinctBy(r, RecommendationId) by {
      forall i, j | 0 <= i < j < |r| ensures r[i].item.id != r[j].item.id {
        assert r[i] == sorted[i] && r[j] == sorted[j];
      }
    }
    CF.CollaborativeMembers(target, users);
    CB.ContentBasedShape(catalog, target, 0.0);
    AddContentKeys(Seed(catalog, cf), cb);
    forall e | e in r
      ensures e.item.id !in target.purchaseHistory
      ensures e.item.id in cf || e.item.id in CandidateIds(cb)
    {
      RecommendEntry(catalog, users, target, e);
      if e.item.id !in cf {
        var c :| c in cb && c.item.id == e.item.id;
      }
    }
  }

  /**
   * Nothing left out of the six outranks what was kept: every entry of the merged
   * map is returned or has a total no higher than each returned entry.
   */
  lemma RecommendComplete(catalog: seq<Item>, users: seq<User>, target: User, k: int)
    requires k in Merge(catalog, CF.Collaborative(target, users), CB.ContentBased(catalog, target)).values
    ensures var m := Merge(catalog, CF.Collaborative(target, users), CB.ContentBased(catalog, target));
            var r := Recommend(catalog, users, target);
            m.values[k] in r || forall d :: d in r ==> d.totalScore >= m.values[k].totalScore
  {
    var m := Merge(catalog, CF.Collaborative(target, users), CB.ContentBased(catalog, target));
    TopComplete(Values(m), TotalKey, MaxRecommendations, m.values[k]);
  }

  lemma IdsOfDistinct(cands: seq<CB.Candidate>)
    requires DistinctBy(cands, CB.CandidateId)
    ensures CF.Distinct(IdsOf(cands))
  {
    var ids := IdsOf(cands);
    forall x, y | 0 <= x < y < |ids| ensures ids[x] != ids[y] {
      assert CB.CandidateId(cands[x]) != CB.CandidateId(cands[y]);
    }
  }

  /** In `first + second`, a key of `f` stands in `first` when `second` holds none. */
  lemma InFirstPart(first: seq<int>, second: seq<int>, f: set<int>, a: nat)
    requires forall x :: x in second ==> x !in f
    requires a < |first + second| && (first + second)[a] in f
    ensures a < |first| && (first + second)[a] == first[a]
  {
    forall k | |first| <= k < |first + second| ensures (first + second)[k] !in f {
      assert (first + second)[k] == second[k - |first|] && second[k - |first|] in second;
    }
  }

  /** In `first + second`, a key outside `f` stands in `second` when `first` lies in `f`. */
  lemma InSecondPart(first: seq<int>, second: seq<int>, f: set<int>, a: nat)
    requires forall x :: x in first ==> x in f
    requires a < |first + second| && (first + second)[a] !in f
    ensures |first| <= a && (first + second)[a] == second[a - |first|]
  {
    forall k | 0 <= k < |first| ensures (first + second)[k] in f {
      assert (first + second)[k] == first[k] && first[k] in first;
    }
  }

  /** Two places of the merged keys holding the ids of two tied returned entries, in their order. */
  lemma TiePositions(catalog: seq<Item>, users: seq<User>, target: User, i: nat, j: nat)
    requires i < j < |Recommend(catalog, users, target)|
    requires Recommend(catalog, users, target)[i].totalScore == Recommend(catalog, users, target)[j].totalScore
    ensures var m := Merge(catalog, CF.Collaborative(target, users), CB.ContentBased(catalog, target));
            var r := Recommend(catalog, users, target);
      exists a, b :: 0 <= a < b < |m.keys| && m.keys[a] == r[i].item.id && m.keys[b] == r[j].item.id
  {
    var m := Merge(catalog, CF.Collaborative(target, users), CB.ContentBased(catalog, target));
    var r := Recommend(catalog, users, target);
    var vs := Values(m);
    TopTieOrigin(vs, TotalKey, MaxRecommendations, i, j);
    var a, b :| 0 <= a < b < |vs| && vs[a] == r[i] && vs[b] == r[j];
    assert m.keys[a] == r[i].item.id && m.keys[b] == r[j].item.id;
  }

  /** A merged entry is `Content-Based` exactly when its id is not a resolved collaborative id. */
  lemma ContentBasedIffNotFound(catalog: seq<Item>, cfIds: seq<int>, cands: seq<CB.Candidate>, k: int)
    requires DistinctBy(cands, CB.CandidateId)
    requires k in Merge(catalog, cfIds, cands).values
    ensures Merge(catalog, cfIds, cands).values[k].source == ContentBased <==> k !in Found(catalog, cfIds)
  {
    MergeSources(catalog, cfIds, cands);
  }

  /**
   * Entries of equal total come in the order of the lists that found them: two
   * entries found collaboratively (`Collaborative` or `Hybrid`) in the order of
   * the collaborative result, two `Content-Based` ones in the order of the
   * content-based result.
   */
  lemma RecommendTieOrder(catalog: seq<Item>, users: seq<User>, target: User)
    requires UniqueIds(catalog)
    ensures var r := Recommend(catalog, users, target);
            var cf, cb := CF.Collaborative(target, users), IdsOf(CB.ContentBased(catalog, target));
      forall i, j :: 0 <= i < j < |r| && r[i].totalScore == r[j].totalScore ==>
        && (r[i].source != ContentBased && r[j].source != ContentBased ==>
              && r[i].item.id in cf && r[j].item.id in cf
              && CF.IndexOf(cf, r[i].item.id) < CF.IndexOf(cf, r[j].item.id))
        && (r[i].source == ContentBased && r[j].source == ContentBased ==>
              && r[i].item.id in cb && r[j].item.id in cb
              && CF.IndexOf(cb, r[i].item.id) < CF.IndexOf(cb, r[j].item.id))
  {
    var r := Recommend(catalog, users, target);
    forall i, j | 0 <= i < j < |r| && r[i].totalScore == r[j].totalScore {
      TiedPairOrder(catalog, users, target, i, j);
    }
  }

  /** `RecommendTieOrder` for one pair of entries. */
  lemma TiedPairOrder(catalog: seq<Item>, users: seq<User>, target: User, i: nat, j: nat)
    requires UniqueIds(catalog)
    requires i < j < |Recommend(catalog, users, target)|
    requires Recommend(catalog, users, target)[i].totalScore == Recommend(catalog, users, target)[j].totalScore
    ensures var r := Recommend(catalog, users, target);
            var cf, cb := CF.Collaborative(target, users), IdsOf(CB.ContentBased(catalog, target));
      && (r[i].source != ContentBased && r[j].source != ContentBased ==>
            && r[i].item.id in cf && r[j].item.id in cf
            && CF.IndexOf(cf, r[i].item.id) < CF.IndexOf(cf, r[j].item.id))
      && (r[i].source == ContentBased && r[j].source == ContentBased ==>
            && r[i].item.id in cb && r[j].item.id in cb
            && CF.IndexOf(cb, r[i].item.id) < CF.IndexOf(cb, r[j].item.id))
  {
    var cfIds, cands := CF.Collaborative(target, users), CB.ContentBased(catalog, target);
    var m := Merge(catalog, cfIds, cands);
    var r := Recommend(catalog, users, target);
    var f := Found(catalog, cfIds);
    var seeded := Filter(cfIds, ResolvesIn(catalog));
    var added := Filter(IdsOf(cands), Outside(f));
    CB.ContentBasedDistinct(catalog, target);
    IdsOfDistinct(cands);
    assert m.keys == seeded + added;
    TiePositions(catalog, users, target, i, j);
    var a, b :| 0 <= a < b < |m.keys| && m.keys[a] == r[i].item.id && m.keys[b] == r[j].item.id;
    ContentBasedIffNotFound(catalog, cfIds, cands, m.keys[a]);
    ContentBasedIffNotFound(catalog, cfIds, cands, m.keys[b]);
    RecommendEntry(catalog, users, target, r[i]);
    RecommendEntry(catalog, users, target, r[j]);
    if r[i].source != ContentBased && r[j].source != ContentBased {
      InFirstPart(seeded, added, f, a);
      InFirstPart(seeded, added, f, b);
      FilterOrder(cfIds, ResolvesIn(catalog));
    }
    if r[i].source == ContentBased && r[j].source == ContentBased {
      InSecondPart(seeded, added, f, a);
      InSecondPart(seeded, added, f, b);
      FilterOrder(IdsOf(cands), Outside(f));
    }
  }

  /**
   * With a catalog of unique ids, a returned entry is `Hybrid` exactly when both
   * strategies found its id, `Collaborative` or `Content-Based` when only that
   * one did, and its total is 0.6 and/or 0.4 accordingly.
   */
  lemma EntrySource(catalog: seq<Item>, users: seq<User>, target: User, e: Recommendation)
    requires UniqueIds(catalog)
    requires e in Recommend(catalog, users, target)
    ensures var cf, cb := CF.Collaborative(target, users), CandidateIds(CB.ContentBased(catalog, target));
      && (e.source == Hybrid <==> e.item.id in cf && e.item.id in cb)
      && (e.source == Collaborative <==> e.item.id in cf && e.item.id !in cb)
      && (e.source == ContentBased <==> e.item.id !in cf && e.item.id in cb)
      && e.totalScore == (if e.item.id in cf then CollaborativeWeight else 0)
                         + (if e.item.id in cb then ContentWeight else 0)
  {
    var cfIds, cands := CF.Collaborative(target, users), CB.ContentBased(catalog, target);
    var k := e.item.id;
    CB.ContentBasedDistinct(catalog, target);
    MergeSources(catalog, cfIds, cands);
    RecommendEntry(catalog, users, target, e);
    if k in cfIds && k in CandidateIds(cands) {
      CB.ContentBasedShape(catalog, target, 0.0);
      var c :| c in cands && c.item.id == k;
      assert Find(catalog, k).Some?;
    }
  }

  /** Items found by both strategies (total 1.0) are ranked above all others. */
  lemma HybridFirst(catalog: seq<Item>, users: seq<User>, target: User)
    requires UniqueIds(catalog)
    ensures var r := Recommend(catalog, users, target);
      forall i, j :: 0 <= i < j < |r| && r[j].source == Hybrid ==> r[i].source == Hybrid
  {
    var r := Recommend(catalog, users, target);
    RecommendShape(catalog, users, target, 0.0);
    forall i, j | 0 <= i < j < |r| && r[j].source == Hybrid ensures r[i].source == Hybrid {
      EntrySource(catalog, users, target, r[i]);
      EntrySource(catalog, users, target, r[j]);
    }
  }

  /**
   * The map lists exactly `cands`, in order, each as a `Content-Based` entry of
   * total 0.4 that keeps its content score.
   */
  ghost predicate ListsContent(m: Combined, cands: seq<CB.Candidate>)
  {
    && |m.keys| == |cands|
    && forall i :: 0 <= i < |cands| ==>
         && m.keys[i] == cands[i].item.id
         && cands[i].item.id in m.values
         && m.values[cands[i].item.id] == Recommendation(cands[i].item, ContentBased, cands[i].score, ContentWeight)
  }

  lemma AppendContent(m: Combined, pre: seq<CB.Candidate>, p: CB.Candidate)
    requires Valid(m) && ListsContent(m, pre) && p.item.id !in m.values
    ensures ListsContent(Put(m, Recommendation(p.item, ContentBased, p.score, ContentWeight)), pre + [p])
  {
    var e := Recommendation(p.item, ContentBased, p.score, ContentWeight);
    var r := Put(m, e);
    var cands := pre + [p];
    assert r.keys == m.keys + [p.item.id];
    forall i | 0 <= i < |cands|
      ensures r.keys[i] == cands[i].item.id
      ensures cands[i].item.id in r.values
      ensures r.values[cands[i].item.id] == Recommendation(cands[i].item, ContentBased, cands[i].score, ContentWeight)
    {
      if i < |pre| {
        assert cands[i] == pre[i];
        assert pre[i].item.id in m.values;
      } else {
        assert cands[i] == p;
      }
    }
  }

  /**
   * Candidates with distinct ids merged into an empty map are appended in their
   * order, each as a `Content-Based` entry of total 0.4 keeping its score.
   */
  lemma {:induction false} AddContentFresh(cands: seq<CB.Candidate>)
    requires DistinctBy(cands, CB.CandidateId)
    ensures ListsContent(AddContent(Empty, cands), cands)
  {
    if |cands| > 0 {
      var n := |cands| - 1;
      var pre, p := cands[..n], cands[n];
      assert cands == pre + [p];
      assert DistinctBy(pre, CB.CandidateId) by {
        forall i, j | 0 <= i < j < |pre| ensures pre[i].item.id != pre[j].item.id {
          assert pre[i] == cands[i] && pre[j] == cands[j];
        }
      }
      AddContentFresh(pre);
      var m := AddContent(Empty, pre);
      assert p.item.id !in m.keys by {
        forall i | 0 <= i < |pre| ensures m.keys[i] != p.item.id {
          assert pre[i] == cands[i];
        }
      }
      AppendContent(m, pre, p);
    }
  }

  /**
   * With no collaborative result and a catalog of unique ids, the recommendations
   * are the content-based list itself, in its order, every entry `Content-Based`
   * with total 0.4 and its content score kept.
   */
  lemma RecommendContentOnly(catalog: seq<Item>, users: seq<User>, target: User)
    requires UniqueIds(catalog)
    requires CF.Collaborative(target, users) == []
    ensures var cb := CB.ContentBased(catalog, target);
      Recommend(catalog, users, target)
      == seq(|cb|, i requires 0 <= i < |cb| => Recommendation(cb[i].item, ContentBased, cb[i].score, ContentWeight))
  {
    var cb := CB.ContentBased(catalog, target);
    CB.ContentBasedDistinct(catalog, target);
    assert Seed(catalog, []) == Empty;
    AddContentFresh(cb);
    var m := AddContent(Empty, cb);
    var vs := Values(m);
    var expected := seq(|cb|, i requires 0 <= i < |cb| => Recommendation(cb[i].item, ContentBased, cb[i].score, ContentWeight));
    forall i | 0 <= i < |cb| ensures vs[i] == expected[i] {
      assert vs[i] == m.values[m.keys[i]];
      assert m.keys[i] == cb[i].item.id;
    }
    assert vs == expected;
    forall x | x in vs ensures TotalKey(x) == ContentWeight as real {
    }
    SortEqualKeys(vs, TotalKey, ContentWeight as real);
  }

  /**
   * Lines 117-126 as written: the guard `if (p.id)` is false both for an id the
   * catalog lacks and for an item whose id is 0, so such an item is dropped too.
   */
  function SeedAsWritten(catalog: seq<Item>, ids: seq<int>): (c: Combined)
    ensures Valid(c)
    ensures forall k :: k in c.values ==> k != 0 && k in Found(catalog, ids)
  {
    if |ids| == 0 then Empty
    else
      var c := SeedAsWritten(catalog, ids[..|ids| - 1]);
      match Find(catalog, ids[|ids| - 1])
      case None => c
      case Some(p) =>
        if p.id != 0 then Put(c, Recommendation(p, Collaborative, CollaborativeWeight, CollaborativeWeight))
        else c
  }

  /**
   * As written, the keys are the collaborative ids that pass the guard, in the
   * order of the collaborative list.
   */
  lemma {:induction false} SeedAsWrittenKeys(catalog: seq<Item>, ids: seq<int>)
    ensures CF.Distinct(ids) ==> SeedAsWritten(catalog, ids).keys == Filter(ids, PassesGuard(catalog))
  {
    if |ids| > 0 && CF.Distinct(ids) {
      var init, x := ids[..|ids| - 1], ids[|ids| - 1];
      assert ids == init + [x];
      DistinctLast(ids);
      SeedAsWrittenKeys(catalog, init);
      assert x !in SeedAsWritten(catalog, init).values;
    }
  }

  /**
   * A collaborative hit on a catalog item with id 0 is lost as written, while the
   * intended merge keeps it.
   */
  lemma ZeroIdDroppedAsWritten()
    ensures var catalog := [Item(0, "Gift Card", "Accessories", 999, 40, "")];
            && SeedAsWritten(catalog, [0]).values == map[]
            && Seed(catalog, [0]).values.Keys == {0}
  {
    var catalog := [Item(0, "Gift Card", "Accessories", 999, 40, "")];
    assert [0][..0] == [];
    assert Find(catalog, 0) == Some(catalog[0]);
  }

  /** The intended merge keeps every collaborative id the catalog resolves, id 0 included. */
  lemma SeedKeepsFound(catalog: seq<Item>, ids: seq<int>, x: int)
    requires x in ids && Find(catalog, x).Some?
    ensures x in Seed(catalog, ids).values
    ensures Seed(catalog, ids).values[x].item == Find(catalog, x).value
  {
  }

  /**
   * The guard only matters for id 0: on a catalog without an item of id 0 the
   * first loop as written and the intended one build the same map.
   */
  lemma {:induction false} SeedAsWrittenAgrees(catalog: seq<Item>, ids: seq<int>)
    ensures Find(catalog, 0).None? ==> SeedAsWritten(catalog, ids) == Seed(catalog, ids)
  {
    if |ids| > 0 {
      SeedAsWrittenAgrees(catalog, ids[..|ids| - 1]);
    }
  }
}
