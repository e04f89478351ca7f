# Favorites store

A Dafny model of the favorites store of a small Nuxt web application
(`useFavoritesStore`, a Pinia store). The store holds an ordered list of
rocket entries (an id, a display name, an optional description). It starts
empty. It offers two derived reads: `count` is the number of entries, and
`isFavorite(id)` says whether some entry carries the id. It offers three
actions:

- `addRocket` appends an entry only when no entry already carries its id.
  The first entry stored under an id wins, even if a later one has a
  different name or description.
- `removeRocket` keeps only the entries that do not carry the id.
- `clearAll` empties the list.

Layout:

- `rocket_list.dfy` (module `RocketList`) holds the `Rocket` value type. It
  also holds the three JavaScript array operations the store uses, keyed on
  the entry id: `some` (`SomeHasId`), `find` (`FindById`) and `filter`
  (`WithoutId`). Each is a function on sequences, with lemmas about it: the
  set of ids held (`Ids`), id uniqueness (`UniqueIds`), order preservation
  and idempotence of the filter, and counting.
- `favorites.dfy` (module `Favorites`) holds the store as a class. Its one
  field is `rockets: seq<Rocket>`. The getters are functions that read the
  object. The actions are methods that reassign the field. `Valid()` is the
  uniqueness-by-id invariant. `Session` is a client that runs the store
  through a short sequence of actions and reports what the getters return.

The actions demand nothing of their callers. Each action states what the new
list is for every old list. Each action also states that it keeps the
invariant when the invariant held before (`old(Valid()) ==> Valid()`). The
store's own actions are the only writers of the list, and the initial state
is valid, so the invariant holds in every state they reach.

`removeRocket` drops *every* entry carrying the id, because it is a
`filter`. A description of the store as "removing the entry, if any" agrees
with this only under the uniqueness invariant. The model follows the code:
`RemoveRocket` is specified by the filter for any list. It drops exactly one
entry only when the invariant holds (`WithoutIdAt`).

The guard in `addRocket` negates the result of `find`. A stored entry is an
object and is therefore always truthy, so the guard holds exactly when `find`
returns `undefined`. The model writes this as `FindById(...).None?`.

## Model

| member | source | states |
|---|---|---|
| RocketList.SomeHasId | app/stores/favorites.ts:15 | `some` on the list is true exactly when some index holds an entry with the id |
| RocketList.FindById | app/stores/favorites.ts:19 | `find` returns nothing exactly when no entry carries the id; otherwise it returns the first entry that carries it |
| RocketList.WithoutId | app/stores/favorites.ts:24 | the filtered list is no longer than the input and holds exactly the input's entries whose id differs |
| RocketList.WithoutIdAppend | app/stores/favorites.ts:24 | filtering distributes over concatenation, so the kept entries stay in their original relative order |
| RocketList.WithoutIdAbsent | app/stores/favorites.ts:24 | filtering by an id that no entry carries returns the list unchanged |
| RocketList.WithoutIdAt | app/stores/favorites.ts:24 | with unique ids, filtering by the id of entry k gives the list with just entry k deleted |
| RocketList.WithoutIdIdempotent | app/stores/favorites.ts:24 | filtering twice by the same id gives the same list as filtering once |
| RocketList.WithoutIdKeepsUnique | app/stores/favorites.ts:24 | filtering keeps ids unique |
| RocketList.AppendKeepsUnique | app/stores/favorites.ts:19-20 | appending an entry whose id no entry carries keeps ids unique |
| RocketList.IdsAppend | app/stores/favorites.ts:20 | appending an entry adds exactly its id to the set of ids held |
| RocketList.UniqueIdsCount | app/stores/favorites.ts:14 | a list never holds more distinct ids than entries, and it holds exactly as many if and only if its ids are unique |
| Favorites.FavoritesStore.constructor | app/stores/favorites.ts:10-12 | the store starts with an empty list, which satisfies the invariant; count is 0 and no id is a favorite |
| Favorites.FavoritesStore.Count | app/stores/favorites.ts:14 | the entry count equals the number of distinct ids held if and only if the invariant holds |
| Favorites.FavoritesStore.IsFavorite | app/stores/favorites.ts:15 | true exactly when the id is among the ids held |
| Favorites.FavoritesStore.AddRocket | app/stores/favorites.ts:18-22 | if the id is absent, the entry is appended and count rises by 1; if present, the list is unchanged (first write wins); afterwards the id is a favorite and no other id's status has changed; the invariant is kept |
| Favorites.FavoritesStore.RemoveRocket | app/stores/favorites.ts:23-25 | the new list is the filter of the old one; the id is no longer a favorite and no other id's status has changed; an absent id leaves the list unchanged; under the invariant, exactly the one matching entry is deleted in place, count drops by 1 if the id was present and is unchanged otherwise, and the invariant is kept |
| Favorites.FavoritesStore.ClearAll | app/stores/favorites.ts:26-28 | the list is empty, count is 0, no id is a favorite and the invariant holds; since the result does not depend on the old list, a second call changes nothing |
| Favorites.Session | app/stores/favorites.ts:9-30 | adding falcon9, then a falcon9 duplicate, then starship, removing falcon9 and clearing gives counts 1, 1, 2, 1, 0; the kept name is "Falcon 9"; after the removal falcon9 is not a favorite and starship is |

## Left out

- The route middleware (`app/middleware/redirect.global.ts`) is left out. It is one framework routing hook: it redirects to `/launches` when no route matches, and it has no state or logic beyond that branch.
- The GraphQL client plugin (`app/plugins/apollo.ts`) is left out. It only constructs library objects (an HTTP link to a fixed URL and an in-memory cache) and registers the client through dependency injection. These are foreign calls.
- The Pinia machinery is left out: `defineStore`, reactivity and observers, the store's singleton lifetime, and writes to `rockets` from outside the store's actions. Such outside writes could break the uniqueness invariant. The model covers only the getters and actions that the store file defines.
- Aliasing is left out. `addRocket` pushes onto the array in place, and other code holding a reference to that array would see the change. The model's list is a sequence value, so it does not capture this.
- Field validation is not modelled, because the store does none. Any id, name and description is accepted, including the empty string.
