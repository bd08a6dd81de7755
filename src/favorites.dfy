/** The `useFavorites` hook: three id lists, one per kind of item, kept in a
    state cell and mirrored to `localStorage`. */
module Favorites {
  import opened IdLists

  datatype Kind = Places | Events | Services

  /** The `Favorites` record. */
  datatype FavoriteLists = FavoriteLists(places: seq<string>, events: seq<string>, services: seq<string>) {
    /** `favorites[type]`. */
    function Get(kind: Kind): seq<string> {
      match kind
      case Places => places
      case Events => events
      case Services => services
    }

    /** `{ ...prev, [type]: list }`. */
    function With(kind: Kind, list: seq<string>): (r: FavoriteLists)
      ensures r.Get(kind) == list
      ensures forall other :: other != kind ==> r.Get(other) == Get(other)
    {
      match kind
      case Places => this.(places := list)
      case Events => this.(events := list)
      case Services => this.(services := list)
    }
  }

  const NoFavorites := FavoriteLists([], [], [])

  /** What `toggleFavorite` makes of the previous state. */
  function Toggled(prev: FavoriteLists, kind: Kind, id: string): FavoriteLists {
    prev.With(kind, Toggle(prev.Get(kind), id))
  }

  /** Toggling touches only the list of its own kind, and flips the id's
      membership there. */
  lemma ToggleFavoriteIsLocal(prev: FavoriteLists, kind: Kind, id: string)
    ensures forall other :: other != kind ==> Toggled(prev, kind, id).Get(other) == prev.Get(other)
    ensures id in Toggled(prev, kind, id).Get(kind) <==> id !in prev.Get(kind)
  {
    ToggleMembership(prev.Get(kind), id);
  }

  /** Toggling an absent favourite twice restores every list. */
  lemma ToggleFavoriteTwice(prev: FavoriteLists, kind: Kind, id: string)
    requires id !in prev.Get(kind)
    ensures Toggled(Toggled(prev, kind, id), kind, id) == prev
  {
    ToggleTwiceRestores(prev.Get(kind), id);
    var once := Toggled(prev, kind, id);
    var twice := Toggled(once, kind, id);
    assert twice.Get(Places) == prev.Get(Places);
    assert twice.Get(Events) == prev.Get(Events);
    assert twice.Get(Services) == prev.Get(Services);
  }

  class FavoritesHook {
    /** The state cell. */
    var favorites: FavoriteLists
    /** The `amooora_favorites` entry of `localStorage`. */
    var saved: Entry<FavoriteLists>

    /** Mounting reads the stored lists, or starts from three empty ones. */
    constructor (stored: Entry<FavoriteLists>)
      ensures favorites == Load(stored, NoFavorites)
      ensures saved == stored
    {
      favorites := Load(stored, NoFavorites);
      saved := stored;
    }

    /** `toggleFavorite`: updates the state and saves it. */
    method ToggleFavorite(kind: Kind, id: string)
      modifies this
      ensures favorites == Toggled(old(favorites), kind, id)
      ensures saved == Holds(favorites)
      ensures IsFavorite(kind, id) == !old(IsFavorite(kind, id))
      ensures forall other, x :: other != kind || x != id ==> IsFavorite(other, x) == old(IsFavorite(other, x))
    {
      ToggleMembership(favorites.Get(kind), id);
      var list := favorites.Get(kind);
      if id in list {
        list := Without(list, id);
      } else {
        list := list + [id];
      }
      favorites := favorites.With(kind, list);
      saved := Holds(favorites);
    }

    /** `isFavorite`. */
    function IsFavorite(kind: Kind, id: string): bool
      reads this
    {
      id in favorites.Get(kind)
    }

    /** `getFavoritesByType`. */
    function FavoritesByType(kind: Kind): seq<string>
      reads this
    {
      favorites.Get(kind)
    }

    /** `clearFavorites`: three empty lists, saved. */
    method ClearFavorites()
      modifies this
      ensures favorites == NoFavorites
      ensures saved == Holds(NoFavorites)
      ensures forall kind, id :: !IsFavorite(kind, id)
    {
      favorites := NoFavorites;
      saved := Holds(favorites);
    }
  }
}
