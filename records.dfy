/**
 * The engine's records: catalog items and user profiles, and the catalog
 * lookup `products.find(p => p.id === id)`.
 *
 * Ratings are held in integer tenths of a star (4.5 is 45), so every score the
 * engine computes is an exact integer number of tenths.
 */
module Records {

  datatype Option<+T> = None | Some(value: T)

  /** A catalog entry; `rating` is in tenths of a star, `price` in minor units. */
  datatype Item = Item(id: int, name: string, category: string, price: int, rating: nat, image: string)

  /**
   * A user profile. Only `id` and `purchaseHistory` are read by the engine;
   * the other fields are carried along.
   */
  datatype User = User(
    id: int,
    name: string,
    purchaseHistory: seq<int>,
    browsingHistory: seq<int>,
    preferences: seq<string>)

  /** The catalog holds no two items with the same id. */
  ghost predicate UniqueIds(catalog: seq<Item>)
  {
    forall i, j :: 0 <= i < j < |catalog| ==> catalog[i].id != catalog[j].id
  }

  /** The first catalog item with the given id, if any. */
  function Find(catalog: seq<Item>, id: int): (r: Option<Item>)
    ensures r.None? <==> forall i :: 0 <= i < |catalog| ==> catalog[i].id != id
    ensures r.Some? ==> r.value.id == id && r.value in catalog
    ensures r.Some? ==> exists i :: 0 <= i < |catalog| && catalog[i] == r.value
                                    && forall j :: 0 <= j < i ==> catalog[j].id != id
  {
    if |catalog| == 0 then None
    else if catalog[0].id == id then Some(catalog[0])
    else
      var r := Find(catalog[1..], id);
      assert r.Some? ==> exists i :: 1 <= i < |catalog| && catalog[i] == r.value
                                     && forall j :: 0 <= j < i ==> catalog[j].id != id by {
        if r.Some? {
          var i :| 0 <= i < |catalog[1..]| && catalog[1..][i] == r.value
                   && forall j :: 0 <= j < i ==> catalog[1..][j].id != id;
          assert catalog[i + 1] == r.value;
          forall j | 0 <= j < i + 1 ensures catalog[j].id != id {
            if j > 0 { assert catalog[j] == catalog[1..][j - 1]; }
          }
        }
      }
      r
  }

  /** In a catalog without repeated ids, an item of the catalog is what its id finds. */
  lemma FindMember(catalog: seq<Item>, item: Item)
    requires UniqueIds(catalog)
    requires item in catalog
    ensures Find(catalog, item.id) == Some(item)
  {
    var k :| 0 <= k < |catalog| && catalog[k] == item;
    var r := Find(catalog, item.id);
    var i :| 0 <= i < |catalog| && catalog[i] == r.value
             && forall j :: 0 <= j < i ==> catalog[j].id != item.id;
    assert i <= k;
  }
}
