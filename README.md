# AI recommendation engine: hybrid ranking core

The application is a React demo of a product recommendation engine. It holds a
fixed catalog of ten products and three user profiles. For a selected user it
combines two strategies:

- **Collaborative filtering.** Every other user gets a Jaccard similarity
  between the two users' purchase-id sets. The others are ranked most similar
  first. Each one with positive similarity contributes the items they bought
  that the selected user does not own. These go into an insertion-ordered set.
- **Content-based filtering.** The categories of the user's purchases are
  counted. Every item the user does not own is scored as
  `count[category] × rating`. The items are sorted by score, highest first, and
  the top five are kept.

The hybrid step merges the two lists into an insertion-ordered map keyed by
product id:

- a collaborative hit enters with weight 0.6 (`Collaborative`);
- a content hit on an existing key turns that entry into `Hybrid` and adds 0.4;
- any other content hit is appended as `Content-Based` with 0.4.

The map's values are then sorted by total, highest first, and the first six are
shown.

The Dafny model is organised in these modules:

- `Records`: items, users and the catalog lookup `Find`.
- `Similarity`: `calculateSimilarity`.
- `Ranking`: the stable descending sort and `slice`, shared by all three
  rankings.
- `CollaborativeFilter`, `ContentFilter` and `HybridRanking`: the three
  functions of the engine.
- `SeedData`: the shipped catalog and users as fixtures, and what the engine
  computes for them.

Each loop of the source is a method. Each method is proved equal to a
specification function that recurses on the last element of its sequence (a
left fold), and the properties are lemmas about those functions. JavaScript's `Array.prototype.sort` is stable. The model's
`Ranking.SortDesc` is a stable insertion sort, and stability is proved as a
property: for each key value, the subsequence of elements with that key keeps
its order.

Numbers are exact. Ratings, content scores and the weights 0.6/0.4 are integer
tenths: 4.6 is 46, 0.6 is 6, 0.6 + 0.4 is 10. Similarity is a Dafny `real`.

The guard `if (p.id)` at line 125 also drops a catalog item whose id is 0 (see
"## Findings"). The methods `SeedMap` and `GenerateRecommendations` follow the
guard as written (`SeedAsWritten`, `RecommendAsWritten`). The specification
`Recommend`, about which the merge and ranking properties are proved, uses the
intended `Seed`. `SeedAsWrittenAgrees` proves that the two coincide on every
catalog without an item of id 0, and `SampleAsWritten` shows that the shipped
catalog is such a catalog.

## Model

| member | source | states |
|---|---|---|
| Records.Find | src/App.js:88 | `products.find`: None exactly when no item has the id; otherwise the first catalog item with that id |
| Records.FindMember | src/App.js:117-119 | in a catalog with unique ids, each catalog item is what its own id finds |
| Similarity.Jaccard | src/App.js:51-58 | the similarity lies in [0, 1]; it is 0 exactly when the histories share no id; it is 1 exactly when both hold the same non-empty id set |
| Similarity.CalculateSimilarity | src/App.js:51-59 | in [0, 1], and positive exactly when the two users bought a common id |
| Similarity.SimilaritySymmetric | src/App.js:51-59 | similarity does not depend on argument order |
| Similarity.SimilarityOfEmpty | src/App.js:58 | two empty histories give 0 (the `union === 0` guard) |
| Similarity.SimilarityIsPerId | src/App.js:52-58 | similarity is 0 exactly when no purchased id is shared, whatever the categories |
| Similarity.SimilarityReflexive | src/App.js:51-59 | a non-empty history is 1 similar to itself |
| Ranking.SortDesc | src/App.js:68 | the stable descending sort used at lines 68, 104 and 142; it keeps the length, and the lemmas below prove it a sorted, stable permutation |
| Ranking.SortPermutation | src/App.js:68 | the sort returns a permutation of its input |
| Ranking.SortSorted | src/App.js:104 | the sort's result is non-increasing by the key |
| Ranking.SortStable | src/App.js:142 | elements with equal keys keep their input order |
| Ranking.SortEqualKeys | src/App.js:142 | when all keys are equal, the sort leaves the sequence unchanged |
| Ranking.SortDistinct | src/App.js:141-142 | the sort introduces no repeated id |
| Ranking.Take | src/App.js:106 | `slice(0, n)` is a prefix of length min(n, length) |
| Ranking.TopSortedStable | src/App.js:104-106 | the first n after sorting are sorted; equal-key elements keep their input order |
| Ranking.TopComplete | src/App.js:104-106 | an element left out of the first n scores no higher than every kept element |
| Ranking.TopTieOrigin | src/App.js:141-143 | two kept elements with equal keys stand in the input in the same order |
| CollaborativeFilter.Neighbours | src/App.js:62-67 | the similarity list pairs exactly the users whose id differs from the target's with their similarity (order and count in `NeighboursAt`) |
| CollaborativeFilter.Positions | src/App.js:63 | the positions of `users` that pass the filter: strictly increasing, each passing position exactly once |
| CollaborativeFilter.NeighboursAt | src/App.js:62-67 | the k-th entry of the similarity list is the user at the k-th passing position with its similarity: one entry per other user, in the order of `users` |
| CollaborativeFilter.NeighboursInOrder | src/App.js:62-67 | the same, as one sequence equality |
| CollaborativeFilter.AddPurchases | src/App.js:74-78 | the set only grows: it gains exactly the unowned ids of the history, and no id is added twice |
| CollaborativeFilter.AddPurchasesOrder | src/App.js:74-78 | the ids appended come from the history, are new to the set, and follow the order of their first occurrence in the history |
| CollaborativeFilter.Ranked | src/App.js:62-68 | the similarity list after the sort; it has exactly one entry per passing position of `users` (see `CollaborativeOrder` for the order) |
| CollaborativeFilter.Collaborative | src/App.js:61-83 | `collaborativeFiltering(user)`: no id twice and no id the user owns |
| CollaborativeFilter.Gather | src/App.js:70-80 | the set holds no repeats and no owned id; it holds exactly the unowned purchases of the positively similar users that were walked |
| CollaborativeFilter.CollaborativeFiltering | src/App.js:61-83 | the nested loops compute `Collaborative` |
| CollaborativeFilter.CollaborativeMembers | src/App.js:62-82 | no repeats and no owned ids; exactly the unowned purchases of other users with positive similarity |
| CollaborativeFilter.CollaborativeSound | src/App.js:72-79 | each recommended id was bought by another user with positive similarity, and the target does not own it |
| CollaborativeFilter.CollaborativeComplete | src/App.js:72-79 | each unowned purchase of another positively similar user is recommended |
| CollaborativeFilter.CollaborativeOrder | src/App.js:68-81 | users are walked by non-increasing similarity; users of equal similarity in the order of `users`; what the first k users contribute is a prefix of the result |
| CollaborativeFilter.NoOverlapNoCandidates | src/App.js:62-82 | a target that shares no purchase with anyone gets an empty result |
| CollaborativeFilter.PositiveNeighbours | src/App.js:62-73 | when at most one other user (the one at position k, or none for k = -1) has positive similarity, it is the only positive entry of the similarity list |
| CollaborativeFilter.SingleNeighbour | src/App.js:61-83 | with exactly one positively similar user, the result is that user's unowned purchases, in their order, without repeats |
| ContentFilter.Tally | src/App.js:91-96 | `categoryCount` after the loop; every stored count is at least 1 |
| ContentFilter.Count | src/App.js:102 | `categoryCount[category]`, defaulting to 0: a category never bought counts 0 |
| ContentFilter.Score | src/App.js:102 | the score is 0 exactly when the category was never bought or the rating is 0 |
| ContentFilter.Candidates | src/App.js:98-103 | the filtered and scored catalog, never longer than the catalog (membership in `CandidatesMembers`) |
| ContentFilter.ContentBased | src/App.js:86-107 | `contentBasedFiltering(user)`: at most five candidates (see `ContentBasedShape`) |
| ContentFilter.TallyCounts | src/App.js:87-96 | `categoryCount[c]` is the number of purchases that resolve to an item of category c; c is a key exactly when such a purchase exists |
| ContentFilter.CandidatesMembers | src/App.js:98-103 | the candidates are exactly the unowned catalog items, each with `count × rating` |
| ContentFilter.CandidatesAppend | src/App.js:98-103 | scoring is item by item: the candidates of a split catalog are those of its parts |
| ContentFilter.CandidatesDistinct | src/App.js:98-103 | in a catalog with unique ids, no candidate id repeats |
| ContentFilter.ContentBasedFiltering | src/App.js:86-107 | the counting loop and the score/sort/slice pipeline compute `ContentBased` |
| ContentFilter.ContentBasedShape | src/App.js:98-106 | the result has at most 5 entries, fewer only when fewer items are unowned. It holds no owned item, and every score is `count × rating`. It is non-increasing by score, with equal scores in catalog order |
| ContentFilter.ContentBasedComplete | src/App.js:98-106 | every unowned item is either kept or scores no higher than each kept one |
| ContentFilter.ContentBasedDistinct | src/App.js:98-106 | in a catalog with unique ids, the kept candidates have distinct ids |
| HybridRanking.Put | src/App.js:125 | `Map.set`: replaces the entry in place or appends the key; the map stays well formed |
| HybridRanking.Values | src/App.js:141 | `Array.from(map.values())`: the entries in key-insertion order, one per key, no id twice |
| HybridRanking.Found | src/App.js:117-118 | the collaborative ids that the catalog resolves |
| HybridRanking.CandidateIds | src/App.js:128 | the ids of the content-based candidates |
| HybridRanking.Seed | src/App.js:117-126 | the keys are exactly the resolvable collaborative ids, each a `Collaborative` entry of 0.6 for its item. For a collaborative list without repeats, the key sequence is that list filtered to the resolvable ids, in list order |
| HybridRanking.SeedMap | src/App.js:117-126 | the first loop, with the guard as written, computes `SeedAsWritten`, and so `Seed` on a catalog without an item of id 0 |
| HybridRanking.AddContent | src/App.js:128-139 | the map stays well formed and existing keys keep their positions (the order of the appended keys is in `AddContentOrder`) |
| HybridRanking.AddContentOrder | src/App.js:128-139 | for candidates with distinct ids, the keys are the old keys followed by the candidate ids that were not keys yet, in candidate order |
| HybridRanking.AddContentKeys | src/App.js:128-139 | the merged keys are the seeded keys plus the candidates' ids |
| HybridRanking.FoldContent | src/App.js:128-139 | the second loop computes `AddContent` |
| HybridRanking.AddContentSources | src/App.js:128-139 | a seeded key that is also a candidate becomes `Hybrid` with 1.0. Other seeded keys are unchanged. New keys are `Content-Based` entries of 0.4 built from their candidate |
| HybridRanking.AddContentSourceOf | src/App.js:128-139 | the same as `AddContentSources`, stated for one key |
| HybridRanking.MergeSources | src/App.js:117-139 | each key's tag is `Hybrid`, `Collaborative` or `Content-Based` exactly as both, only collaborative or only content found it. Its total is 0.6 and/or 0.4 to match |
| HybridRanking.MergeOrder | src/App.js:122-139 | in the map, every collaborative key precedes every content-only key |
| HybridRanking.AddContentFresh | src/App.js:128-139 | distinct candidates merged into an empty map are appended in order as `Content-Based` entries of 0.4, keeping their scores |
| HybridRanking.Merge | src/App.js:122-139 | `combinedMap` after both loops is a well-formed map. For a collaborative list without repeats and candidates with distinct ids, its keys are the resolvable collaborative ids in list order, then the other candidate ids in candidate order |
| HybridRanking.Final | src/App.js:141-143 | the sorted values cut to six: min(6, number of keys) entries |
| HybridRanking.Recommend | src/App.js:114-143 | the stored list with the intended guard; at most six entries |
| HybridRanking.RecommendAsWritten | src/App.js:114-143 | the stored list with the guard as written; equal to `Recommend` when no catalog item has id 0 |
| HybridRanking.GenerateRecommendations | src/App.js:114-143 | the callback body computes `RecommendAsWritten`, and so `Recommend` on a catalog without an item of id 0 |
| HybridRanking.RecommendComplete | src/App.js:141-143 | every map entry is returned or has a total no higher than each returned entry |
| HybridRanking.RecommendEntry | src/App.js:141-143 | every returned entry is a map entry stored under its own id |
| HybridRanking.ContentBasedIffNotFound | src/App.js:117-139 | a merged entry is `Content-Based` exactly when its id is not a resolvable collaborative id |
| HybridRanking.RecommendTieOrder | src/App.js:114-143 | with a catalog of unique ids, two returned entries of equal total come in the order of the list that found them. If both were found collaboratively (`Collaborative` or `Hybrid`), that is the order of the collaborative result. If both are `Content-Based`, it is the order of the content-based result |
| HybridRanking.RecommendShape | src/App.js:114-143 | at most six entries, and fewer only when the map holds fewer. The entries are non-increasing by total, with no id twice and none owned. Each was found by one of the strategies, and ties keep map order |
| HybridRanking.EntrySource | src/App.js:117-143 | a returned entry is `Hybrid` exactly when both strategies found it, and otherwise tagged with the one strategy that did |
| HybridRanking.HybridFirst | src/App.js:131-143 | entries found by both strategies (total 1.0) come before all others |
| HybridRanking.RecommendContentOnly | src/App.js:114-143 | with no collaborative result, the output is the content list in its order, each entry `Content-Based` with 0.4 and its score |
| HybridRanking.SeedAsWritten | src/App.js:124-126 | as written, no key is 0 and every key is a resolvable collaborative id |
| HybridRanking.SeedAsWrittenKeys | src/App.js:124-126 | as written, for a collaborative list without repeats, the keys are the ids that pass the guard, in list order |
| HybridRanking.ZeroIdDroppedAsWritten | src/App.js:125 | a collaborative hit on an item with id 0 is dropped as written but kept by `Seed` |
| HybridRanking.SeedKeepsFound | src/App.js:117-126 | every resolvable collaborative id, id 0 included, is stored with its catalog item |
| HybridRanking.SeedAsWrittenAgrees | src/App.js:117-126 | with no catalog item of id 0, the map as written equals the intended one |
| SeedData.SamplePurchasesDisjoint | src/App.js:26-48 | no two sample users share a purchased id |
| SeedData.SampleCollaborativeEmpty | src/App.js:26-48 | so every sample user's collaborative result is empty |
| SeedData.SampleSimilarityByIds | src/App.js:26-58 | users 1 and 3 both buy Electronics yet are 0 similar |
| SeedData.ProductIdsUnique | src/App.js:12-23 | the sample catalog's ids are unique |
| SeedData.SampleNoZeroId | src/App.js:12-23 | no sample item has id 0 |
| SeedData.SampleAsWritten | src/App.js:12-23 | so on the shipped catalog the callback as written stores exactly `Recommend` |
| SeedData.FindProduct | src/App.js:12-23 | each sample item is found by its id |
| SeedData.SampleTally | src/App.js:12-33 | user 1's category counts are Electronics 3 |
| SeedData.SampleCandidates | src/App.js:12-33 | user 1's candidates in catalog order, scored 0, 138, 0, 0, 129, 138, 0 tenths |
| SeedData.SampleSort | src/App.js:104 | the stable sort of those candidates |
| SeedData.SampleContentBased | src/App.js:12-48 | user 1's content top five are ids 4, 9, 8, 3, 5 with scores 13.8, 13.8, 12.9, 0, 0 |
| SeedData.SampleRecommendations | src/App.js:12-48 | user 1 receives those five items, in that order, all `Content-Based` with 0.4 |

## Left out

- React state, `setLoading`, `setRecommendations`, `setActiveTab` and the JSX user interface are not modelled. They are presentation only.
- The 1000 ms `setTimeout` delay is left out. The model is the body of the delayed callback.
- IEEE-754 floating point is not modelled. Scores and weights are exact integer tenths, and similarity is an exact real. In binary64, 4.6 and 4.3 are not exact, and 3 × 4.3 is 12.899999999999999 rather than 12.9. With the sample data, though, no comparison changes. Items 4 and 9 share the rating 4.6 and so tie exactly, and 0.6 + 0.4 is exactly 1. A comparison that rounding would decide differently from exact arithmetic is not captured.
- Looking a user up by id is not modelled. The engine receives a user value and reads only its `id` and `purchaseHistory`.
- `categoryCount` is modelled as a `map<string, nat>`. A category name that collides with a property inherited by a JavaScript plain object, such as `constructor`, is not modelled.
- Strings are compared as Dafny character sequences. There is no Unicode normalisation.
- A collaborative id that the catalog lacks produces `{ source, score }` without an `id` in the source. The guard at line 125 drops it, and the model drops it the same way, through `Find` returning `None`.
- Browsing histories and preferences are carried in `User` but are never read, just as in the source.
- AddContentOrder and Merge: the order of the appended keys is stated for candidates with distinct ids. The content-based list has distinct ids whenever the catalog does, which is true of the shipped catalog (`ProductIdsUnique`). With a repeated catalog id, the second candidate of that id would turn the first into `Hybrid`. That key order is not stated.
- RecommendTieOrder: stated for catalogs with unique ids, for the same reason.

## Findings

| source | as written | input that shows it | evidently intended | confidence | as-written member | corrected member |
|---|---|---|---|---|---|---|
| src/App.js:125 | `if (p.id)` tests the id's truthiness, so a product whose id is 0 is skipped, just like an unresolved one | a catalog holding one item with id 0, which is also the collaborative result | keep every collaborative id that the catalog resolves, whatever its value | not executed | HybridRanking.ZeroIdDroppedAsWritten | HybridRanking.SeedKeepsFound |
