/** The favourites list kept in browser storage: the heart toggle of the challenge page
    (`checkIfFavorite`, `toggleFavorite`) and the favourites page (`loadFavorites`,
    `removeFavorite`). Storage is an in-memory value; absent means nothing was stored. */
module Favorites {
  import opened Wrappers
  import opened Seqs
  import opened Challenges

  /** `favorites.some(fav => fav.id === id)`. */
  predicate IsFavorite(favs: seq<Challenge>, id: int) {
    exists i :: 0 <= i < |favs| && favs[i].id == id
  }

  /** `favorites.filter(fav => fav.id !== id)`, shared by both pages. */
  function RemoveById(favs: seq<Challenge>, id: int): (r: seq<Challenge>)
    ensures !IsFavorite(r, id)
    ensures IsSubsequence(r, favs)
    ensures forall c :: c in r <==> c in favs && c.id != id
    ensures forall c :: multiset(r)[c] == if c.id != id then multiset(favs)[c] else 0
  {
    FilterKeeps(favs, (c: Challenge) => c.id != id);
    Filter(favs, (c: Challenge) => c.id != id)
  }

  /** Removing an id that is not there leaves the list unchanged. */
  lemma RemoveAbsent(favs: seq<Challenge>, id: int)
    requires !IsFavorite(favs, id)
    ensures RemoveById(favs, id) == favs
  {
    FilterAllPass(favs, (c: Challenge) => c.id != id);
  }

  /** `some` and `filter` agree: the heart is on exactly when removing the id would change
      the list. */
  lemma IsFavoriteIffRemovable(favs: seq<Challenge>, id: int)
    ensures IsFavorite(favs, id) <==> RemoveById(favs, id) != favs
  {
    if !IsFavorite(favs, id) {
      RemoveAbsent(favs, id);
    }
  }

  /** Removing twice is removing once. */
  lemma RemoveTwice(favs: seq<Challenge>, id: int)
    ensures RemoveById(RemoveById(favs, id), id) == RemoveById(favs, id)
  {
    RemoveAbsent(RemoveById(favs, id), id);
  }

  /** `toggleFavorite`: driven by the page's `isFavorite` flag, it either drops every entry
      with the page's id or appends the loaded challenge; returns the new list and flag. */
  function ToggleFavorite(favs: seq<Challenge>, isFavorite: bool, challenge: Challenge, id: int): (r: (seq<Challenge>, bool))
    ensures r.1 == !isFavorite
    ensures isFavorite ==> !IsFavorite(r.0, id) && IsSubsequence(r.0, favs)
    ensures isFavorite ==> forall c :: multiset(r.0)[c] == if c.id != id then multiset(favs)[c] else 0
    ensures !isFavorite ==> |r.0| == |favs| + 1 && r.0[..|favs|] == favs && r.0[|favs|] == challenge
  {
    if isFavorite then (RemoveById(favs, id), false)
    else
      var added := favs + [challenge];
      assert added[..|favs|] == favs;
      (added, true)
  }

  /** The flag keeps telling the truth: if it matched the stored list before a toggle of the
      loaded challenge, it matches after. */
  lemma ToggleKeepsFlagTrue(favs: seq<Challenge>, challenge: Challenge)
    ensures var r := ToggleFavorite(favs, IsFavorite(favs, challenge.id), challenge, challenge.id);
      r.1 == IsFavorite(r.0, challenge.id)
  {
    var r := ToggleFavorite(favs, IsFavorite(favs, challenge.id), challenge, challenge.id);
    if !IsFavorite(favs, challenge.id) {
      assert r.0[|favs|].id == challenge.id;
    }
  }

  /** Adding then removing a challenge that was not a favourite restores the list. */
  lemma ToggleTwiceRestores(favs: seq<Challenge>, challenge: Challenge)
    requires !IsFavorite(favs, challenge.id)
    ensures var once := ToggleFavorite(favs, false, challenge, challenge.id);
      ToggleFavorite(once.0, once.1, challenge, challenge.id) == (favs, false)
  {
    var added := favs + [challenge];
    FilterAllPass(favs, (c: Challenge) => c.id != challenge.id);
    assert Filter(added, (c: Challenge) => c.id != challenge.id) == favs by {
      FilterSnocDropped(favs, challenge, (c: Challenge) => c.id != challenge.id);
    }
  }

  /** Filtering a list with a dropped element appended at the end is filtering the list. */
  lemma {:induction false} FilterSnocDropped(xs: seq<Challenge>, x: Challenge, p: Challenge -> bool)
    requires !p(x)
    ensures Filter(xs + [x], p) == Filter(xs, p)
  {
    if |xs| == 0 {
      assert xs + [x] == [x];
    } else {
      assert (xs + [x])[1..] == xs[1..] + [x];
      FilterSnocDropped(xs[1..], x, p);
    }
  }

  /** The favourites page: the list on screen and the list in storage. */
  datatype FavoritesPage = FavoritesPage(shown: seq<Challenge>, stored: Option<seq<Challenge>>)

  /** `loadFavorites`: the stored list when there is one; otherwise the initial empty list stays. */
  function LoadFavorites(stored: Option<seq<Challenge>>): (p: FavoritesPage)
    ensures p.stored == stored
    ensures stored.None? ==> p.shown == []
    ensures stored.Some? ==> p.shown == stored.value
  {
    FavoritesPage(stored.GetOr([]), stored)
  }

  /** `removeFavorite`: the filtered list is both shown and written back. */
  function RemoveFavorite(page: FavoritesPage, id: int): (p: FavoritesPage)
    ensures p.stored == Some(p.shown)
    ensures !IsFavorite(p.shown, id)
    ensures forall c :: c in p.shown <==> c in page.shown && c.id != id
    ensures forall c :: multiset(p.shown)[c] == if c.id != id then multiset(page.shown)[c] else 0
  {
    var updated := RemoveById(page.shown, id);
    FavoritesPage(updated, Some(updated))
  }

  /** A removal persists: reloading the page shows the same list, and the challenge page's
      heart for that id reads as not a favourite. */
  lemma RemovalPersists(page: FavoritesPage, id: int)
    ensures var p := RemoveFavorite(page, id);
      && LoadFavorites(p.stored) == p
      && !IsFavorite(LoadFavorites(p.stored).shown, id)
  {
  }
}
