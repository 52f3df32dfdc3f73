/** Request sequences against a fresh database, with the replies and tables the handler
    contracts alone determine. Ids come from one counter, so the first user created gets
    id 1 and the next row of any table gets id 2. */
module Scenarios {
  import opened Tables
  import opened Models
  import opened Queries
  import opened FavoriteRules
  import opened Store

  /** A created user reads back with every public column and without the password; a second
      creation with the same email is refused and adds no row. */
  method CreateThenGetUser() returns (fetched: Reply, again: Reply, userCount: nat)
    ensures fetched == Body(200, map["id" := Int(1), "username" := Str("luke"), "name" := Null,
                                     "lastname" := Str("Skywalker"), "email" := Str("a@x.com")])
    ensures again == Message(400, "User email already exists")
    ensures userCount == 1
  {
    var db := new Database();
    var created := db.CreateUser(Some("luke"), None, Some("Skywalker"), "secret", "a@x.com");
    assert created == Message(200, "New user created");
    fetched := db.GetUser(1);
    again := db.CreateUser(None, None, None, "other", "a@x.com");
    userCount := |db.users|;
  }

  /** One user and one planet, no favorites yet. */
  method UserAndPlanet() returns (db: Database)
    ensures fresh(db) && db.Valid()
    ensures db.favorites == [] && db.nextId == 3
  {
    db := new Database();
    var r := db.CreateUser(None, None, None, "secret", "a@x.com");
    r := db.CreatePlanet(Some("Tatooine"));
  }

  /** Favoriting the same planet twice: the first request is accepted, the repeat is
      refused, and deleting the pairing afterwards succeeds and leaves no trace of it. */
  method FavoritePlanetTwice() returns (first: Reply, second: Reply, removal: Reply, left: seq<Favorites>)
    ensures first == Message(200, "New planet added to user list")
    ensures second == Message(400, "This planet exists in that user favorites list")
    ensures removal == Message(200, "Planet deleted from user list")
    ensures left == []
  {
    var db := UserAndPlanet();
    var row := NewFavorite(3, 1, PlanetTarget(2));
    FreshSideAccepted([], 1, PlanetTarget(2));
    first := db.CreateFavorite(1, PlanetTarget(2));
    assert db.favorites == [] + [row] == [row];
    RepeatRejected([], 3, 1, PlanetTarget(2));
    second := db.CreateFavorite(1, PlanetTarget(2));
    assert PairExists(db.favorites, 1, PlanetTarget(2)) by {
      assert db.favorites[0] == row;
    }
    removal := db.DeleteFavoriteOf(1, PlanetTarget(2));
    left := db.favorites;
    assert left == Remove([row], 0);
  }

  /** One user and one character, no favorites yet. */
  method UserAndCharacter() returns (db: Database)
    ensures fresh(db) && db.Valid()
    ensures db.characters == [Character(2, Some("Yoda"))] && db.favorites == [] && db.nextId == 3
  {
    db := new Database();
    var r := db.CreateUser(None, None, None, "secret", "a@x.com");
    r := db.CreateCharacter(Some("Yoda"));
  }

  /** Two users and one planet, no favorites yet. */
  method TwoUsersAndPlanet() returns (db: Database)
    ensures fresh(db) && db.Valid()
    ensures |db.users| == 2 && db.users[0].id == 1 && db.favorites == [] && db.nextId == 4
  {
    db := new Database();
    var r := db.CreateUser(None, None, None, "secret", "a@x.com");
    r := db.CreateUser(None, None, None, "secret", "b@x.com");
    r := db.CreatePlanet(Some("Tatooine"));
  }

  /** Deleting a character keeps the favorites row that pointed at it, with the
      reference cleared. */
  method DeleteCharacterDetaches() returns (left: seq<Favorites>)
    ensures left == [Favorites(3, 1, None, None)]
  {
    var db := UserAndCharacter();
    var row := NewFavorite(3, 1, CharacterTarget(2));
    FreshSideAccepted([], 1, CharacterTarget(2));
    var r := db.CreateFavorite(1, CharacterTarget(2));
    assert db.favorites == [] + [row] == [row];
    assert CharacterIdPresent(db.characters, 2) by {
      assert db.characters[0].id == 2;
    }
    r := db.DeleteCharacter(2);
    left := db.favorites;
    assert left[0] == Detach(row, CharacterTarget(2));
  }

  /** Two users, a planet, and both users favoring that planet. */
  method UsersSharingPlanet() returns (db: Database)
    ensures fresh(db) && db.Valid()
    ensures |db.users| == 2 && db.users[0].id == 1
    ensures db.favorites == [Favorites(4, 1, Some(3), None), Favorites(5, 2, Some(3), None)]
  {
    db := TwoUsersAndPlanet();
    var row := NewFavorite(4, 1, PlanetTarget(3));
    FreshSideAccepted([], 1, PlanetTarget(3));
    var r := db.CreateFavorite(1, PlanetTarget(3));
    assert db.favorites == [] + [row] == [row];
    FreshSideAccepted([row], 2, PlanetTarget(3));
    r := db.CreateFavorite(2, PlanetTarget(3));
    assert db.favorites == [row] + [NewFavorite(5, 2, PlanetTarget(3))];
  }

  /** Deleting a user takes that user's favorites along and leaves the other users' rows. */
  method DeleteUserCascades() returns (left: seq<Favorites>)
    ensures left == [Favorites(5, 2, Some(3), None)]
  {
    var db := UsersSharingPlanet();
    ghost var before := db.favorites;
    assert UserIdPresent(db.users, 1);
    var r := db.DeleteUser(1);
    left := db.favorites;
    assert left == Filter(before, (f: Favorites) => f.userId != 1);
    assert before[1..][1..] == [];
  }
}
