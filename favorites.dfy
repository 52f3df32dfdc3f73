/** The favorites rules: the coarse duplicate check on creation, the guard on deletion,
    the rows a creation appends, and what deleting a user, planet or character does to the
    favorites table. */
module FavoriteRules {
  import opened Tables
  import opened Models
  import opened Queries

  /** The row `Favorites(user_id=..., id_<target>=...)` that a successful creation inserts:
      it references exactly the requested target and leaves the other column null. */
  function NewFavorite(id: nat, userId: nat, t: Target): (f: Favorites)
    ensures f.id == id && f.userId == userId && Refers(f, t)
    ensures forall t' :: Refers(f, t') ==> t' == t
  {
    match t
    case PlanetTarget(p) => Favorites(id, userId, Some(p), None)
    case CharacterTarget(c) => Favorites(id, userId, None, Some(c))
  }

  /** The creation guard as written: this user has some favorite AND this target is
      favorited by someone, possibly in two different rows. */
  predicate CoarseDuplicate(favs: seq<Favorites>, userId: nat, t: Target)
  {
    UserHasFavorite(favs, userId) && IsFavorited(favs, t)
  }

  /** The deletion guard as written: neither lookup finds a row. */
  predicate NothingToDelete(favs: seq<Favorites>, userId: nat, t: Target)
  {
    !UserHasFavorite(favs, userId) && !IsFavorited(favs, t)
  }

  /** A user without favorites, or a target nobody has favorited, always passes the
      creation guard. */
  lemma FreshSideAccepted(favs: seq<Favorites>, userId: nat, t: Target)
    requires !UserHasFavorite(favs, userId) || !IsFavorited(favs, t)
    ensures !CoarseDuplicate(favs, userId, t)
  {
  }

  /** The coarse guard never lets a recorded pairing through: whenever the exact pairing
      exists, the creation is rejected. */
  lemma CoarseCoversExact(favs: seq<Favorites>, userId: nat, t: Target)
    requires PairExists(favs, userId, t)
    ensures CoarseDuplicate(favs, userId, t)
  {
    var i :| 0 <= i < |favs| && favs[i].userId == userId && Refers(favs[i], t);
    assert favs[i].userId == userId;
  }

  /** Repeating a successful creation is rejected: the row just inserted satisfies both
      lookups. */
  lemma RepeatRejected(favs: seq<Favorites>, id: nat, userId: nat, t: Target)
    ensures CoarseDuplicate(favs + [NewFavorite(id, userId, t)], userId, t)
  {
    var after := favs + [NewFavorite(id, userId, t)];
    assert after[|favs|] == NewFavorite(id, userId, t);
    assert PairExists(after, userId, t);
    CoarseCoversExact(after, userId, t);
  }

  /** A row appended after passing the creation guard, with an id above every stored id,
      keeps the favorites table free of repeated pairings. */
  lemma NewFavoriteCompatible(favs: seq<Favorites>, id: nat, userId: nat, t: Target)
    requires !CoarseDuplicate(favs, userId, t)
    requires forall i :: 0 <= i < |favs| ==> favs[i].id < id
    ensures forall i :: 0 <= i < |favs| ==> FavoriteRowsCompatible(favs[i], NewFavorite(id, userId, t))
  {
    var f := NewFavorite(id, userId, t);
    forall i | 0 <= i < |favs|
      ensures FavoriteRowsCompatible(favs[i], f)
    {
      if favs[i].userId == userId {
        assert UserHasFavorite(favs, userId);
        assert !Refers(favs[i], t);
      }
    }
  }

  /** With no repeated pairing, removing the row that records a pairing leaves none. */
  lemma PairGoneAfterRemove(favs: seq<Favorites>, k: nat, userId: nat, t: Target)
    requires Pairwise(favs, FavoriteRowsCompatible)
    requires k < |favs| && favs[k].userId == userId && Refers(favs[k], t)
    ensures !PairExists(Remove(favs, k), userId, t)
  {
    PairwiseRemove(favs, k, FavoriteRowsCompatible);
    var r := Remove(favs, k);
    forall i | 0 <= i < |r|
      ensures !(r[i].userId == userId && Refers(r[i], t))
    {
      assert !SamePairing(favs[k], r[i]) || !SamePairing(r[i], favs[k]);
    }
  }

  /** Removing the row that records a pairing keeps the favorites invariant (no repeated
      pairing, every id below `bound`) and leaves the pairing unrecorded. */
  lemma RemovePairingKeepsTable(favs: seq<Favorites>, k: nat, userId: nat, t: Target, bound: nat)
    requires Pairwise(favs, FavoriteRowsCompatible)
    requires forall i :: 0 <= i < |favs| ==> favs[i].id < bound
    requires k < |favs| && favs[k].userId == userId && Refers(favs[k], t)
    ensures Pairwise(Remove(favs, k), FavoriteRowsCompatible)
    ensures forall i :: 0 <= i < |Remove(favs, k)| ==> Remove(favs, k)[i].id < bound
    ensures !PairExists(Remove(favs, k), userId, t)
  {
    PairwiseRemove(favs, k, FavoriteRowsCompatible);
    PairGoneAfterRemove(favs, k, userId, t);
  }

  /** When the deletion guard finds nothing, no row pairs the user with the target either,
      so the 400 answer never hides a recorded pairing. */
  lemma NothingToDeleteMeansNoPair(favs: seq<Favorites>, userId: nat, t: Target)
    requires NothingToDelete(favs, userId, t)
    ensures !PairExists(favs, userId, t)
  {
    forall i | 0 <= i < |favs|
      ensures !(favs[i].userId == userId && Refers(favs[i], t))
    {
      assert favs[i].userId != userId;
    }
  }

  /** Cascade of `User.favorites` (`all, delete-orphan`): the favorites that survive the
      deletion of user `userId`. */
  function CascadeUser(favs: seq<Favorites>, userId: nat): (r: seq<Favorites>)
    ensures forall i :: 0 <= i < |r| ==> r[i] in favs && r[i].userId != userId
    ensures forall i :: 0 <= i < |favs| && favs[i].userId != userId ==> favs[i] in r
    ensures forall f :: multiset(r)[f] == if f.userId != userId then multiset(favs)[f] else 0
    ensures !UserHasFavorite(r, userId)
  {
    var keep := (f: Favorites) => f.userId != userId;
    assert forall f :: multiset(Filter(favs, keep))[f] == if keep(f) then multiset(favs)[f] else 0 by {
      forall f ensures multiset(Filter(favs, keep))[f] == if keep(f) then multiset(favs)[f] else 0 {
        FilterCounts(favs, keep, f);
      }
    }
    Filter(favs, keep)
  }

  /** The cascade keeps the surviving favorites free of repeated pairings and below the
      id counter. */
  lemma CascadeUserKeepsTable(favs: seq<Favorites>, userId: nat, bound: nat)
    requires FavoritesValid(favs, bound)
    ensures FavoritesValid(CascadeUser(favs, userId), bound)
  {
    PairwiseFilter(favs, (f: Favorites) => f.userId != userId, FavoriteRowsCompatible);
  }

  /** Clears the column of `f` that references `t`, if it does. */
  function Detach(f: Favorites, t: Target): Favorites
  {
    match t
    case PlanetTarget(p) => if f.idPlanet == Some(p) then f.(idPlanet := None) else f
    case CharacterTarget(c) => if f.idCharacter == Some(c) then f.(idCharacter := None) else f
  }

  /** Deleting a planet or character whose relationship has no delete cascade: the ORM keeps
      every favorites row and sets the referencing column to null. */
  function DetachAll(favs: seq<Favorites>, t: Target): (r: seq<Favorites>)
    ensures |r| == |favs|
    ensures forall i :: 0 <= i < |r| ==> r[i].id == favs[i].id && r[i].userId == favs[i].userId
    ensures forall i :: 0 <= i < |r| ==> !Refers(r[i], t)
    ensures forall i :: 0 <= i < |r| ==> Refers(favs[i], t) || r[i] == favs[i]
    ensures forall i, t' :: 0 <= i < |r| && t' != t ==> (Refers(r[i], t') <==> Refers(favs[i], t'))
  {
    seq(|favs|, i requires 0 <= i < |favs| => Detach(favs[i], t))
  }

  /** Clearing a reference never creates a repeated pairing. */
  lemma DetachAllCompatible(favs: seq<Favorites>, t: Target)
    requires Pairwise(favs, FavoriteRowsCompatible)
    ensures Pairwise(DetachAll(favs, t), FavoriteRowsCompatible)
  {
    var r := DetachAll(favs, t);
    forall i, j | 0 <= i < j < |r|
      ensures FavoriteRowsCompatible(r[i], r[j])
    {
      assert FavoriteRowsCompatible(favs[i], favs[j]);
      assert r[i] == Detach(favs[i], t) && r[j] == Detach(favs[j], t);
    }
  }

  // ---- The two defects of the favorites handlers ----

  /** The creation guard rejects a pairing that does not exist: user 1 favors character 5,
      user 2 favors character 7, and user 1 asking for character 7 is refused. */
  lemma CoarseCheckRejectsNewPair()
    ensures var favs := [Favorites(1, 1, None, Some(5)), Favorites(2, 2, None, Some(7))];
      CoarseDuplicate(favs, 1, CharacterTarget(7)) && !PairExists(favs, 1, CharacterTarget(7))
  {
    var favs := [Favorites(1, 1, None, Some(5)), Favorites(2, 2, None, Some(7))];
    assert favs[0].userId == 1 && Refers(favs[1], CharacterTarget(7));
  }

  /** The deletion guard passes although no row pairs user and target, so the handler goes on
      to delete the missing row: user 1 favors planet 3 and user 1 asks to drop planet 4. */
  lemma DeleteGuardAdmitsMissingPair()
    ensures var favs := [Favorites(1, 1, Some(3), None)];
      !NothingToDelete(favs, 1, PlanetTarget(4)) && !PairExists(favs, 1, PlanetTarget(4))
  {
    var favs := [Favorites(1, 1, Some(3), None)];
    assert favs[0].userId == 1;
  }

  /** The intended creation rule rejects exactly the recorded pairings; unlike the coarse
      guard it admits every pairing that is not recorded. */
  lemma ExactRuleAdmitsNewPairs(favs: seq<Favorites>, id: nat, userId: nat, t: Target)
    requires !PairExists(favs, userId, t)
    requires Pairwise(favs, FavoriteRowsCompatible)
    requires forall i :: 0 <= i < |favs| ==> favs[i].id < id
    ensures Pairwise(favs + [NewFavorite(id, userId, t)], FavoriteRowsCompatible)
    ensures PairExists(favs + [NewFavorite(id, userId, t)], userId, t)
  {
    var f := NewFavorite(id, userId, t);
    forall i | 0 <= i < |favs|
      ensures FavoriteRowsCompatible(favs[i], f)
    {
      if favs[i].userId == userId {
        assert !Refers(favs[i], t);
      }
    }
    PairwiseAppend(favs, f, FavoriteRowsCompatible);
    assert (favs + [f])[|favs|] == f;
  }
}
