/** The request handlers, run against an in-memory database that holds the four tables in
    insertion order and a counter that hands out fresh ids. Each write handler runs its
    lookups and then either leaves every table as it was or adds or removes rows. */
module Store {
  import opened Tables
  import opened Models
  import opened Queries
  import opened FavoriteRules

  /** What a handler sends back. */
  datatype Reply =
    | Message(status: int, msg: string)  // `jsonify({"msg": ...}), status`
    | Body(status: int, body: Object)    // `jsonify(record.serialize()), status`
    | Listing(status: int, items: seq<Object>)  // `jsonify(list(map(serialize, rows))), status`
    | Raised(status: int, msg: string)   // an `APIException`, turned into JSON by the error handler
    | Crash                              // an uncaught exception: the server answers 500

  function DuplicateFavoriteMsg(t: Target): string
  {
    if t.PlanetTarget? then "This planet exists in that user favorites list"
    else "This character exists in that user favorites list"
  }

  function FavoriteAddedMsg(t: Target): string
  {
    if t.PlanetTarget? then "New planet added to user list" else "New character added to user list"
  }

  function FavoriteMissingMsg(t: Target): string
  {
    if t.PlanetTarget? then "Planet or user not found" else "character or user not found"
  }

  function FavoriteRemovedMsg(t: Target): string
  {
    if t.PlanetTarget? then "Planet deleted from user list" else "character deleted from user list"
  }

  class Database {
    var users: seq<User>
    var planets: seq<Planet>
    var characters: seq<Character>
    var favorites: seq<Favorites>
    var nextId: nat

    /** Ids are below the counter and increase in insertion order, emails and names are not
        repeated, and no favorites pairing is recorded twice. */
    ghost predicate Valid()
      reads this
    {
      UsersValid(users, nextId) && PlanetsValid(planets, nextId) &&
      CharactersValid(characters, nextId) && FavoritesValid(favorites, nextId)
    }

    constructor ()
      ensures Valid()
      ensures users == [] && planets == [] && characters == [] && favorites == []
      ensures nextId == 1
    {
      users, planets, characters, favorites := [], [], [], [];
      nextId := 1;
    }

    // ---- GET all: every row serialized, in table order ----

    method GetUsers() returns (r: Reply)
      ensures r.Listing? && r.status == 200 && |r.items| == |users|
      ensures forall i :: 0 <= i < |users| ==> r.items[i] == SerializeUser(users[i])
      ensures forall i :: 0 <= i < |r.items| ==> "password" !in r.items[i]
    {
      var rows := users;
      r := Listing(200, seq(|rows|, i requires 0 <= i < |rows| => SerializeUser(rows[i])));
    }

    method GetPlanets() returns (r: Reply)
      ensures r.Listing? && r.status == 200 && |r.items| == |planets|
      ensures forall i :: 0 <= i < |planets| ==> r.items[i] == SerializePlanet(planets[i])
    {
      var rows := planets;
      r := Listing(200, seq(|rows|, i requires 0 <= i < |rows| => SerializePlanet(rows[i])));
    }

    method GetCharacters() returns (r: Reply)
      ensures r.Listing? && r.status == 200 && |r.items| == |characters|
      ensures forall i :: 0 <= i < |characters| ==> r.items[i] == SerializeCharacter(characters[i])
    {
      var rows := characters;
      r := Listing(200, seq(|rows|, i requires 0 <= i < |rows| => SerializeCharacter(rows[i])));
    }

    method GetFavorites() returns (r: Reply)
      ensures r.Listing? && r.status == 200 && |r.items| == |favorites|
      ensures forall i :: 0 <= i < |favorites| ==> r.items[i] == SerializeFavorites(favorites[i])
    {
      var rows := favorites;
      r := Listing(200, seq(|rows|, i requires 0 <= i < |rows| => SerializeFavorites(rows[i])));
    }

    // ---- GET by id: the first row with that id, serialized; no guard against a missing row ----

    method GetUser(id: nat) returns (r: Reply)
      ensures r.Body? <==> UserIdPresent(users, id)
      ensures r.Body? ==> r.status == 200 && "password" !in r.body
      ensures r.Body? ==> exists i :: 0 <= i < |users| && users[i].id == id && r.body == SerializeUser(users[i])
      ensures !r.Body? ==> r == Crash
    {
      var k := UserById(users, id);
      if k.None? {
        r := Crash;
      } else {
        r := Body(200, SerializeUser(users[k.value]));
      }
    }

    method GetPlanet(id: nat) returns (r: Reply)
      ensures r.Body? <==> PlanetIdPresent(planets, id)
      ensures r.Body? ==> r.status == 200
      ensures r.Body? ==> exists i :: 0 <= i < |planets| && planets[i].id == id && r.body == SerializePlanet(planets[i])
      ensures !r.Body? ==> r == Crash
    {
      var k := PlanetById(planets, id);
      if k.None? {
        r := Crash;
      } else {
        r := Body(200, SerializePlanet(planets[k.value]));
      }
    }

    method GetCharacter(id: nat) returns (r: Reply)
      ensures r.Body? <==> CharacterIdPresent(characters, id)
      ensures r.Body? ==> r.status == 200
      ensures r.Body? ==> exists i :: 0 <= i < |characters| && characters[i].id == id && r.body == SerializeCharacter(characters[i])
      ensures !r.Body? ==> r == Crash
    {
      var k := CharacterById(characters, id);
      if k.None? {
        r := Crash;
      } else {
        r := Body(200, SerializeCharacter(characters[k.value]));
      }
    }

    method GetFavorite(id: nat) returns (r: Reply)
      ensures r.Body? <==> FavoriteIdPresent(favorites, id)
      ensures r.Body? ==> r.status == 200
      ensures r.Body? ==> exists i :: 0 <= i < |favorites| && favorites[i].id == id && r.body == SerializeFavorites(favorites[i])
      ensures !r.Body? ==> r == Crash
    {
      var k := FavoriteById(favorites, id);
      if k.None? {
        r := Crash;
      } else {
        r := Body(200, SerializeFavorites(favorites[k.value]));
      }
    }

    // ---- POST: insert unless the natural key is taken ----

    method CreateUser(username: Option<string>, name: Option<string>, lastname: Option<string>,
                      password: string, email: string) returns (r: Reply)
      requires Valid()
      modifies this
      ensures Valid()
      ensures old(EmailTaken(users, email)) ==>
        r == Message(400, "User email already exists") && users == old(users) && nextId == old(nextId)
      ensures !old(EmailTaken(users, email)) ==>
        r == Message(200, "New user created") &&
        users == old(users) + [User(old(nextId), username, name, lastname, password, email)] &&
        nextId == old(nextId) + 1
      ensures EmailTaken(users, email)
      ensures planets == old(planets) && characters == old(characters) && favorites == old(favorites)
    {
      var found := UserWithEmail(users, email);
      if found.None? {
        var u := User(nextId, username, name, lastname, password, email);
        PairwiseAppend(users, u, UserRowsCompatible);
        users := users + [u];
        nextId := nextId + 1;
        assert users[|users| - 1] == u;
        r := Message(200, "New user created");
      } else {
        r := Message(400, "User email already exists");
      }
    }

    method CreatePlanet(name: Option<string>) returns (r: Reply)
      requires Valid()
      modifies this
      ensures Valid()
      ensures old(PlanetNameTaken(planets, name)) ==>
        r == Message(400, "Planet already exists") && planets == old(planets) && nextId == old(nextId)
      ensures !old(PlanetNameTaken(planets, name)) ==>
        r == Message(200, "New planet created") &&
        planets == old(planets) + [Planet(old(nextId), name)] && nextId == old(nextId) + 1
      ensures PlanetNameTaken(planets, name)
      ensures users == old(users) && characters == old(characters) && favorites == old(favorites)
    {
      var found := PlanetWithName(planets, name);
      if found.None? {
        var p := Planet(nextId, name);
        PairwiseAppend(planets, p, PlanetRowsCompatible);
        planets := planets + [p];
        nextId := nextId + 1;
        assert planets[|planets| - 1] == p;
        r := Message(200, "New planet created");
      } else {
        r := Message(400, "Planet already exists");
      }
    }

    method CreateCharacter(name: Option<string>) returns (r: Reply)
      requires Valid()
      modifies this
      ensures Valid()
      ensures old(CharacterNameTaken(characters, name)) ==>
        r == Message(400, "character already exists") && characters == old(characters) && nextId == old(nextId)
      ensures !old(CharacterNameTaken(characters, name)) ==>
        r == Message(200, "New character created") &&
        characters == old(characters) + [Character(old(nextId), name)] && nextId == old(nextId) + 1
      ensures CharacterNameTaken(characters, name)
      ensures users == old(users) && planets == old(planets) && favorites == old(favorites)
    {
      var found := CharacterWithName(characters, name);
      if found.None? {
        var c := Character(nextId, name);
        PairwiseAppend(characters, c, CharacterRowsCompatible);
        characters := characters + [c];
        nextId := nextId + 1;
        assert characters[|characters| - 1] == c;
        r := Message(200, "New character created");
      } else {
        r := Message(400, "character already exists");
      }
    }

    /** `create_favorite_planet` (t a planet) and `create_favorite_character` (t a character). */
    method CreateFavorite(userId: nat, t: Target) returns (r: Reply)
      requires Valid()
      modifies this
      ensures Valid()
      ensures old(CoarseDuplicate(favorites, userId, t)) ==>
        r == Message(400, DuplicateFavoriteMsg(t)) && favorites == old(favorites) && nextId == old(nextId)
      ensures !old(CoarseDuplicate(favorites, userId, t)) ==>
        r == Message(200, FavoriteAddedMsg(t)) &&
        favorites == old(favorites) + [NewFavorite(old(nextId), userId, t)] && nextId == old(nextId) + 1
      ensures users == old(users) && planets == old(planets) && characters == old(characters)
    {
      var byUser := FirstFavoriteOfUser(favorites, userId);
      var byTarget := FirstFavoriteOf(favorites, t);
      if byUser.Some? && byTarget.Some? {
        r := Message(400, DuplicateFavoriteMsg(t));
      } else {
        var f := NewFavorite(nextId, userId, t);
        NewFavoriteCompatible(favorites, nextId, userId, t);
        PairwiseAppend(favorites, f, FavoriteRowsCompatible);
        favorites := favorites + [f];
        nextId := nextId + 1;
        r := Message(200, FavoriteAddedMsg(t));
      }
    }

    // ---- DELETE by id ----

    /** Removes the user and, through the cascade on `User.favorites`, every favorite of theirs. */
    method DeleteUser(id: nat) returns (r: Reply)
      requires Valid()
      modifies this
      ensures Valid()
      ensures !old(UserIdPresent(users, id)) ==>
        r == Raised(404, "User not found") && users == old(users) && favorites == old(favorites)
      ensures old(UserIdPresent(users, id)) ==>
        r == Message(200, "User deleted successfully") &&
        users == Remove(old(users), old(UserById(users, id)).value) &&
        favorites == CascadeUser(old(favorites), id) &&
        !UserIdPresent(users, id) && !UserHasFavorite(favorites, id)
      ensures planets == old(planets) && characters == old(characters) && nextId == old(nextId)
    {
      var k := UserById(users, id);
      if k.None? {
        r := Raised(404, "User not found");
      } else {
        RemoveUserKeepsTable(users, k.value, nextId);
        CascadeUserKeepsTable(favorites, id, nextId);
        users := Remove(users, k.value);
        favorites := CascadeUser(favorites, id);
        r := Message(200, "User deleted successfully");
      }
    }

    /** Removes the planet; favorites rows that referenced it stay, with `id_planet` cleared. */
    method DeletePlanet(id: nat) returns (r: Reply)
      requires Valid()
      modifies this
      ensures Valid()
      ensures !old(PlanetIdPresent(planets, id)) ==>
        r == Raised(404, "Planet not found") && planets == old(planets) && favorites == old(favorites)
      ensures old(PlanetIdPresent(planets, id)) ==>
        r == Message(200, "Planet deleted successfully") &&
        planets == Remove(old(planets), old(PlanetById(planets, id)).value) &&
        favorites == DetachAll(old(favorites), PlanetTarget(id)) &&
        !PlanetIdPresent(planets, id)
      ensures users == old(users) && characters == old(characters) && nextId == old(nextId)
    {
      var k := PlanetById(planets, id);
      if k.None? {
        r := Raised(404, "Planet not found");
      } else {
        PairwiseRemove(planets, k.value, PlanetRowsCompatible);
        DetachAllCompatible(favorites, PlanetTarget(id));
        planets := Remove(planets, k.value);
        favorites := DetachAll(favorites, PlanetTarget(id));
        r := Message(200, "Planet deleted successfully");
      }
    }

    /** Removes the character; favorites rows that referenced it stay, with `id_character` cleared. */
    method DeleteCharacter(id: nat) returns (r: Reply)
      requires Valid()
      modifies this
      ensures Valid()
      ensures !old(CharacterIdPresent(characters, id)) ==>
        r == Raised(404, "character not found") && characters == old(characters) && favorites == old(favorites)
      ensures old(CharacterIdPresent(characters, id)) ==>
        r == Message(200, "character deleted successfully") &&
        characters == Remove(old(characters), old(CharacterById(characters, id)).value) &&
        favorites == DetachAll(old(favorites), CharacterTarget(id)) &&
        !CharacterIdPresent(characters, id)
      ensures users == old(users) && planets == old(planets) && nextId == old(nextId)
    {
      var k := CharacterById(characters, id);
      if k.None? {
        r := Raised(404, "character not found");
      } else {
        PairwiseRemove(characters, k.value, CharacterRowsCompatible);
        DetachAllCompatible(favorites, CharacterTarget(id));
        characters := Remove(characters, k.value);
        favorites := DetachAll(favorites, CharacterTarget(id));
        r := Message(200, "character deleted successfully");
      }
    }

    method DeleteFavorite(id: nat) returns (r: Reply)
      requires Valid()
      modifies this
      ensures Valid()
      ensures !old(FavoriteIdPresent(favorites, id)) ==>
        r == Message(404, "Favorite not found") && favorites == old(favorites)
      ensures old(FavoriteIdPresent(favorites, id)) ==>
        r == Message(200, "Favorite deleted successfully") &&
        favorites == Remove(old(favorites), old(FavoriteById(favorites, id)).value) &&
        !FavoriteIdPresent(favorites, id)
      ensures users == old(users) && planets == old(planets) && characters == old(characters)
      ensures nextId == old(nextId)
    {
      var k := FavoriteById(favorites, id);
      if k.None? {
        r := Message(404, "Favorite not found");
      } else {
        PairwiseRemove(favorites, k.value, FavoriteRowsCompatible);
        favorites := Remove(favorites, k.value);
        r := Message(200, "Favorite deleted successfully");
      }
    }

    /** `delete_favorite_planet` (t a planet) and `delete_favorite_character` (t a character):
        the coarse guard, then `db.session.delete` of the exact pairing's first row, which
        fails when there is none. */
    method DeleteFavoriteOf(userId: nat, t: Target) returns (r: Reply)
      requires Valid()
      modifies this
      ensures Valid()
      ensures old(NothingToDelete(favorites, userId, t)) ==>
        r == Message(400, FavoriteMissingMsg(t)) && favorites == old(favorites)
      ensures old(!NothingToDelete(favorites, userId, t) && !PairExists(favorites, userId, t)) ==>
        r == Crash && favorites == old(favorites)
      ensures old(PairExists(favorites, userId, t)) ==>
        r == Message(200, FavoriteRemovedMsg(t)) &&
        favorites == Remove(old(favorites), old(FirstPairing(favorites, userId, t)).value) &&
        !PairExists(favorites, userId, t)
      ensures users == old(users) && planets == old(planets) && characters == old(characters)
      ensures nextId == old(nextId)
    {
      var byUser := FirstFavoriteOfUser(favorites, userId);
      var byTarget := FirstFavoriteOf(favorites, t);
      if byUser.None? && byTarget.None? {
        NothingToDeleteMeansNoPair(favorites, userId, t);
        r := Message(400, FavoriteMissingMsg(t));
      } else {
        var k := FirstPairing(favorites, userId, t);
        if k.None? {
          r := Crash;
        } else {
          CoarseCoversExact(favorites, userId, t);
          RemovePairingKeepsTable(favorites, k.value, userId, t, nextId);
          favorites := Remove(favorites, k.value);
          r := Message(200, FavoriteRemovedMsg(t));
        }
      }
    }

    // ---- The favorites handlers with the exact pairing check ----

    /** Creation rejected exactly when this user already favors this target. */
    method CreateFavoriteExact(userId: nat, t: Target) returns (r: Reply)
      requires Valid()
      modifies this
      ensures Valid()
      ensures old(PairExists(favorites, userId, t)) ==>
        r == Message(400, DuplicateFavoriteMsg(t)) && favorites == old(favorites) && nextId == old(nextId)
      ensures !old(PairExists(favorites, userId, t)) ==>
        r == Message(200, FavoriteAddedMsg(t)) &&
        favorites == old(favorites) + [NewFavorite(old(nextId), userId, t)] && nextId == old(nextId) + 1
      ensures PairExists(favorites, userId, t)
      ensures users == old(users) && planets == old(planets) && characters == old(characters)
    {
      var k := FirstPairing(favorites, userId, t);
      if k.Some? {
        r := Message(400, DuplicateFavoriteMsg(t));
      } else {
        ExactRuleAdmitsNewPairs(favorites, nextId, userId, t);
        favorites := favorites + [NewFavorite(nextId, userId, t)];
        nextId := nextId + 1;
        r := Message(200, FavoriteAddedMsg(t));
      }
    }

    /** Deletion answers "not found" whenever the exact pairing is missing, and never fails. */
    method DeleteFavoriteExact(userId: nat, t: Target) returns (r: Reply)
      requires Valid()
      modifies this
      ensures Valid()
      ensures r != Crash
      ensures !old(PairExists(favorites, userId, t)) ==>
        r == Message(400, FavoriteMissingMsg(t)) && favorites == old(favorites)
      ensures old(PairExists(favorites, userId, t)) ==>
        r == Message(200, FavoriteRemovedMsg(t)) &&
        favorites == Remove(old(favorites), old(FirstPairing(favorites, userId, t)).value)
      ensures !PairExists(favorites, userId, t)
      ensures users == old(users) && planets == old(planets) && characters == old(characters)
      ensures nextId == old(nextId)
    {
      var k := FirstPairing(favorites, userId, t);
      if k.None? {
        r := Message(400, FavoriteMissingMsg(t));
      } else {
        RemovePairingKeepsTable(favorites, k.value, userId, t, nextId);
        favorites := Remove(favorites, k.value);
        r := Message(200, FavoriteRemovedMsg(t));
      }
    }
  }
}
