/** The favorites store: an ordered list of rocket entries, kept unique by id,
    with two derived reads (`count`, `isFavorite`) and three actions
    (`addRocket`, `removeRocket`, `clearAll`). */
module Favorites {
  import opened RocketList

  class FavoritesStore {
    /** The store's state: the favorite entries in insertion order. */
    var rockets: seq<Rocket>

    /** The store's invariant: no two entries share an id. */
    ghost predicate Valid()
      reads this
    {
      UniqueIds(rockets)
    }

    /** The initial state: no favorites. */
    constructor ()
      ensures rockets == [] && Valid()
      ensures Count() == 0 && forall id :: !IsFavorite(id)
    {
      rockets := [];
    }

    /** The `count` getter: the number of entries. Under the invariant this is
        the number of distinct favorite ids. */
    function Count(): (n: nat)
      reads this
      ensures Valid() <==> n == |Ids(rockets)|
    {
      UniqueIdsCount(rockets);
      |rockets|
    }

    /** The `isFavorite` getter: some entry carries the id. */
    function IsFavorite(id: string): (b: bool)
      reads this
      ensures b <==> id in Ids(rockets)
    {
      SomeHasId(rockets, id)
    }

    /** The `addRocket` action: append the entry unless its id is already held;
        the first entry stored under an id wins. */
    method AddRocket(rocket: Rocket)
      modifies this
      ensures old(IsFavorite(rocket.id)) ==> rockets == old(rockets)
      ensures !old(IsFavorite(rocket.id)) ==> rockets == old(rockets) + [rocket]
      ensures IsFavorite(rocket.id)
      ensures Count() == if old(IsFavorite(rocket.id)) then old(Count()) else old(Count()) + 1
      ensures forall id :: id != rocket.id ==> (IsFavorite(id) <==> old(IsFavorite(id)))
      ensures old(Valid()) ==> Valid()
    {
      if FindById(rockets, rocket.id).None? {
        if Valid() {
          AppendKeepsUnique(rockets, rocket);
        }
        IdsAppend(rockets, rocket);
        rockets := rockets + [rocket];
      }
    }

    /** The `removeRocket` action: drop every entry carrying the id. */
    method RemoveRocket(id: string)
      modifies this
      ensures rockets == WithoutId(old(rockets), id)
      ensures !IsFavorite(id)
      ensures forall other :: other != id ==> (IsFavorite(other) <==> old(IsFavorite(other)))
      ensures !old(IsFavorite(id)) ==> rockets == old(rockets)
      ensures old(Valid()) ==> Valid()
      ensures old(Valid()) ==> forall k :: 0 <= k < |old(rockets)| && old(rockets)[k].id == id ==>
                                 rockets == old(rockets)[..k] + old(rockets)[k + 1..]
      ensures old(Valid()) ==> Count() == if old(IsFavorite(id)) then old(Count()) - 1 else old(Count())
    {
      ghost var before := rockets;
      rockets := WithoutId(rockets, id);
      if !SomeHasId(before, id) {
        WithoutIdAbsent(before, id);
      }
      if UniqueIds(before) {
        WithoutIdKeepsUnique(before, id);
        forall k | 0 <= k < |before| && before[k].id == id
          ensures rockets == before[..k] + before[k + 1..]
        {
          WithoutIdAt(before, k, id);
        }
      }
    }

    /** The `clearAll` action: drop every entry. */
    method ClearAll()
      modifies this
      ensures rockets == []
      ensures Count() == 0 && forall id :: !IsFavorite(id)
      ensures Valid()
    {
      rockets := [];
    }
  }

  /** A session with the store: add a rocket, add another entry under the same
      id, add a second rocket, remove the first, clear everything. Returns what
      the getters and the list report after each step. */
  method Session() returns (afterAdd: nat, afterDuplicate: nat, keptName: string,
                            afterSecond: nat, afterRemove: nat,
                            removedIsFavorite: bool, otherIsFavorite: bool, afterClear: nat)
    ensures afterAdd == 1 && afterDuplicate == 1 && keptName == "Falcon 9"
    ensures afterSecond == 2 && afterRemove == 1
    ensures !removedIsFavorite && otherIsFavorite
    ensures afterClear == 0
  {
    var store := new FavoritesStore();
    store.AddRocket(Rocket("falcon9", "Falcon 9", None));
    afterAdd := store.Count();
    store.AddRocket(Rocket("falcon9", "Falcon 9 Duplicate", None));
    afterDuplicate := store.Count();
    keptName := store.rockets[0].name;
    store.AddRocket(Rocket("starship", "Starship", None));
    afterSecond := store.Count();
    store.RemoveRocket("falcon9");
    afterRemove := store.Count();
    removedIsFavorite := store.IsFavorite("falcon9");
    otherIsFavorite := store.IsFavorite("starship");
    store.ClearAll();
    afterClear := store.Count();
  }
}
