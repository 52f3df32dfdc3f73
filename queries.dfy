/** The lookups the handlers run: each `filter_by(...).first()` is a first-match index into a
    table, and each is tied to the existence predicate it decides. The row-compatibility
    relations say which pairs of rows one table may hold together. */
module Queries {
  import opened Tables
  import opened Models

  // ---- Existence predicates ----

  predicate UserIdPresent(users: seq<User>, id: nat)
  {
    exists i :: 0 <= i < |users| && users[i].id == id
  }

  predicate EmailTaken(users: seq<User>, email: string)
  {
    exists i :: 0 <= i < |users| && users[i].email == email
  }

  predicate PlanetIdPresent(planets: seq<Planet>, id: nat)
  {
    exists i :: 0 <= i < |planets| && planets[i].id == id
  }

  predicate PlanetNameTaken(planets: seq<Planet>, name: Option<string>)
  {
    exists i :: 0 <= i < |planets| && planets[i].name == name
  }

  predicate CharacterIdPresent(characters: seq<Character>, id: nat)
  {
    exists i :: 0 <= i < |characters| && characters[i].id == id
  }

  predicate CharacterNameTaken(characters: seq<Character>, name: Option<string>)
  {
    exists i :: 0 <= i < |characters| && characters[i].name == name
  }

  predicate FavoriteIdPresent(favs: seq<Favorites>, id: nat)
  {
    exists i :: 0 <= i < |favs| && favs[i].id == id
  }

  /** Some favorites row belongs to user `userId`. */
  predicate UserHasFavorite(favs: seq<Favorites>, userId: nat)
  {
    exists i :: 0 <= i < |favs| && favs[i].userId == userId
  }

  /** Some favorites row, of whichever user, references target `t`. */
  predicate IsFavorited(favs: seq<Favorites>, t: Target)
  {
    exists i :: 0 <= i < |favs| && Refers(favs[i], t)
  }

  /** Some single favorites row pairs user `userId` with target `t`. */
  predicate PairExists(favs: seq<Favorites>, userId: nat, t: Target)
  {
    exists i :: 0 <= i < |favs| && favs[i].userId == userId && Refers(favs[i], t)
  }

  // ---- First-match lookups ----

  function UserById(users: seq<User>, id: nat): (r: Option<nat>)
    ensures r.None? <==> !UserIdPresent(users, id)
    ensures r.Some? ==> r.value < |users| && users[r.value].id == id
  {
    FirstMatch(users, (u: User) => u.id == id)
  }

  function UserWithEmail(users: seq<User>, email: string): (r: Option<nat>)
    ensures r.None? <==> !EmailTaken(users, email)
    ensures r.Some? ==> r.value < |users| && users[r.value].email == email
  {
    FirstMatch(users, (u: User) => u.email == email)
  }

  function PlanetById(planets: seq<Planet>, id: nat): (r: Option<nat>)
    ensures r.None? <==> !PlanetIdPresent(planets, id)
    ensures r.Some? ==> r.value < |planets| && planets[r.value].id == id
  {
    FirstMatch(planets, (p: Planet) => p.id == id)
  }

  function PlanetWithName(planets: seq<Planet>, name: Option<string>): (r: Option<nat>)
    ensures r.None? <==> !PlanetNameTaken(planets, name)
    ensures r.Some? ==> r.value < |planets| && planets[r.value].name == name
  {
    FirstMatch(planets, (p: Planet) => p.name == name)
  }

  function CharacterById(characters: seq<Character>, id: nat): (r: Option<nat>)
    ensures r.None? <==> !CharacterIdPresent(characters, id)
    ensures r.Some? ==> r.value < |characters| && characters[r.value].id == id
  {
    FirstMatch(characters, (c: Character) => c.id == id)
  }

  function CharacterWithName(characters: seq<Character>, name: Option<string>): (r: Option<nat>)
    ensures r.None? <==> !CharacterNameTaken(characters, name)
    ensures r.Some? ==> r.value < |characters| && characters[r.value].name == name
  {
    FirstMatch(characters, (c: Character) => c.name == name)
  }

  function FavoriteById(favs: seq<Favorites>, id: nat): (r: Option<nat>)
    ensures r.None? <==> !FavoriteIdPresent(favs, id)
    ensures r.Some? ==> r.value < |favs| && favs[r.value].id == id
  {
    FirstMatch(favs, (f: Favorites) => f.id == id)
  }

  function FirstFavoriteOfUser(favs: seq<Favorites>, userId: nat): (r: Option<nat>)
    ensures r.None? <==> !UserHasFavorite(favs, userId)
    ensures r.Some? ==> r.value < |favs| && favs[r.value].userId == userId
  {
    FirstMatch(favs, (f: Favorites) => f.userId == userId)
  }

  function FirstFavoriteOf(favs: seq<Favorites>, t: Target): (r: Option<nat>)
    ensures r.None? <==> !IsFavorited(favs, t)
    ensures r.Some? ==> r.value < |favs| && Refers(favs[r.value], t)
  {
    FirstMatch(favs, (f: Favorites) => Refers(f, t))
  }

  /** The chained `filter_by(user_id=...).filter_by(id_<target>=...).first()`. */
  function FirstPairing(favs: seq<Favorites>, userId: nat, t: Target): (r: Option<nat>)
    ensures r.None? <==> !PairExists(favs, userId, t)
    ensures r.Some? ==> r.value < |favs| && favs[r.value].userId == userId && Refers(favs[r.value], t)
  {
    FirstMatch(favs, (f: Favorites) => f.userId == userId && Refers(f, t))
  }

  // ---- Which rows one table may hold together ----

  /** Ids increase in insertion order and no two users share an email. */
  predicate UserRowsCompatible(a: User, b: User)
  {
    a.id < b.id && a.email != b.email
  }

  /** Ids increase in insertion order and no two planets share a name. */
  predicate PlanetRowsCompatible(a: Planet, b: Planet)
  {
    a.id < b.id && a.name != b.name
  }

  /** Ids increase in insertion order and no two characters share a name. */
  predicate CharacterRowsCompatible(a: Character, b: Character)
  {
    a.id < b.id && a.name != b.name
  }

  /** Both rows pair the same user with the same planet or the same character. */
  predicate SamePairing(a: Favorites, b: Favorites)
  {
    a.userId == b.userId &&
    ((a.idPlanet.Some? && a.idPlanet == b.idPlanet) ||
     (a.idCharacter.Some? && a.idCharacter == b.idCharacter))
  }

  /** Ids increase in insertion order and no pairing is recorded twice. */
  predicate FavoriteRowsCompatible(a: Favorites, b: Favorites)
  {
    a.id < b.id && !SamePairing(a, b)
  }

  // ---- What each table holds, given the next id to hand out ----

  ghost predicate UsersValid(users: seq<User>, bound: nat)
  {
    Pairwise(users, UserRowsCompatible) && forall i :: 0 <= i < |users| ==> users[i].id < bound
  }

  ghost predicate PlanetsValid(planets: seq<Planet>, bound: nat)
  {
    Pairwise(planets, PlanetRowsCompatible) && forall i :: 0 <= i < |planets| ==> planets[i].id < bound
  }

  ghost predicate CharactersValid(characters: seq<Character>, bound: nat)
  {
    Pairwise(characters, CharacterRowsCompatible) &&
    forall i :: 0 <= i < |characters| ==> characters[i].id < bound
  }

  ghost predicate FavoritesValid(favs: seq<Favorites>, bound: nat)
  {
    Pairwise(favs, FavoriteRowsCompatible) && forall i :: 0 <= i < |favs| ==> favs[i].id < bound
  }

  /** Removing a user keeps the rest of the table as it was required to be. */
  lemma RemoveUserKeepsTable(users: seq<User>, k: nat, bound: nat)
    requires UsersValid(users, bound) && k < |users|
    ensures UsersValid(Remove(users, k), bound)
  {
    PairwiseRemove(users, k, UserRowsCompatible);
  }
}
