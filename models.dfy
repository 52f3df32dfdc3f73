/** The four entities of the data model and the JSON objects their `serialize` methods build.
    A nullable column is an `Option`; a column declared non-nullable is a plain value. */
module Models {
  import opened Tables

  /** A JSON value as produced by the serializers: an integer, a string or null. */
  datatype Value = Int(n: int) | Str(s: string) | Null

  /** A JSON object: field name to value. */
  type Object = map<string, Value>

  /** `password` and `email` are required; `username`, `name` and `lastname` may be null. */
  datatype User = User(
    id: nat,
    username: Option<string>,
    name: Option<string>,
    lastname: Option<string>,
    password: string,
    email: string)

  datatype Planet = Planet(id: nat, name: Option<string>)

  datatype Character = Character(id: nat, name: Option<string>)

  /** `userId` is required; `idPlanet` and `idCharacter` are each optional, and nothing
      forbids both being set or both being null. */
  datatype Favorites = Favorites(
    id: nat,
    userId: nat,
    idPlanet: Option<nat>,
    idCharacter: Option<nat>)

  /** What a favorite points at: a planet or a character. */
  datatype Target = PlanetTarget(planetId: nat) | CharacterTarget(characterId: nat)

  /** Favorites row `f` references target `t` in the matching column. */
  predicate Refers(f: Favorites, t: Target)
  {
    match t
    case PlanetTarget(p) => f.idPlanet == Some(p)
    case CharacterTarget(c) => f.idCharacter == Some(c)
  }

  function Text(o: Option<string>): Value
  {
    match o
    case None => Null
    case Some(s) => Str(s)
  }

  function Number(o: Option<nat>): Value
  {
    match o
    case None => Null
    case Some(n) => Int(n)
  }

  function SerializeUser(u: User): (r: Object)
    ensures r.Keys == {"id", "username", "name", "lastname", "email"}
    ensures "password" !in r
  {
    map["id" := Int(u.id), "username" := Text(u.username), "name" := Text(u.name),
        "lastname" := Text(u.lastname), "email" := Str(u.email)]
  }

  function SerializePlanet(p: Planet): (r: Object)
    ensures r.Keys == {"id", "name"}
  {
    map["id" := Int(p.id), "name" := Text(p.name)]
  }

  function SerializeCharacter(c: Character): (r: Object)
    ensures r.Keys == {"id", "name"}
  {
    map["id" := Int(c.id), "name" := Text(c.name)]
  }

  function SerializeFavorites(f: Favorites): (r: Object)
    ensures r.Keys == {"id", "user_id", "id_planet", "id_character"}
  {
    map["id" := Int(f.id), "user_id" := Int(f.userId), "id_planet" := Number(f.idPlanet),
        "id_character" := Number(f.idCharacter)]
  }

  lemma TextInjective(a: Option<string>, b: Option<string>)
    ensures Text(a) == Text(b) <==> a == b
  {
  }

  lemma NumberInjective(a: Option<nat>, b: Option<nat>)
    ensures Number(a) == Number(b) <==> a == b
  {
  }

  /** Each public column of a user appears unchanged under its own key. */
  lemma UserSerializationFields(u: User)
    ensures SerializeUser(u)["id"] == Int(u.id) && SerializeUser(u)["email"] == Str(u.email)
    ensures SerializeUser(u)["username"] == Text(u.username) && SerializeUser(u)["name"] == Text(u.name)
    ensures SerializeUser(u)["lastname"] == Text(u.lastname)
  {
  }

  /** A planet's id and name appear unchanged under their own keys. */
  lemma PlanetSerializationFields(p: Planet)
    ensures SerializePlanet(p)["id"] == Int(p.id) && SerializePlanet(p)["name"] == Text(p.name)
  {
  }

  /** A character's id and name appear unchanged under their own keys. */
  lemma CharacterSerializationFields(c: Character)
    ensures SerializeCharacter(c)["id"] == Int(c.id) && SerializeCharacter(c)["name"] == Text(c.name)
  {
  }

  /** All four columns of a favorites row appear unchanged under their own keys. */
  lemma FavoritesSerializationFields(f: Favorites)
    ensures SerializeFavorites(f)["id"] == Int(f.id) && SerializeFavorites(f)["user_id"] == Int(f.userId)
    ensures SerializeFavorites(f)["id_planet"] == Number(f.idPlanet)
    ensures SerializeFavorites(f)["id_character"] == Number(f.idCharacter)
  {
  }

  /** Two users serialize alike exactly when they agree on every column but the password:
      the object carries all public columns and nothing of the password. */
  lemma UserSerializationHidesOnlyPassword(a: User, b: User)
    ensures SerializeUser(a) == SerializeUser(b) <==> a.(password := b.password) == b
  {
    var ma, mb := SerializeUser(a), SerializeUser(b);
    if ma == mb {
      assert ma["id"] == mb["id"] && ma["email"] == mb["email"];
      TextInjective(a.username, b.username);
      TextInjective(a.name, b.name);
      TextInjective(a.lastname, b.lastname);
      assert ma["username"] == mb["username"] && ma["name"] == mb["name"] && ma["lastname"] == mb["lastname"];
    }
  }

  /** A planet's object determines the planet. */
  lemma PlanetSerializationLossless(a: Planet, b: Planet)
    ensures SerializePlanet(a) == SerializePlanet(b) <==> a == b
  {
    if SerializePlanet(a) == SerializePlanet(b) {
      assert SerializePlanet(a)["id"] == SerializePlanet(b)["id"];
      assert SerializePlanet(a)["name"] == SerializePlanet(b)["name"];
      TextInjective(a.name, b.name);
    }
  }

  /** A character's object determines the character. */
  lemma CharacterSerializationLossless(a: Character, b: Character)
    ensures SerializeCharacter(a) == SerializeCharacter(b) <==> a == b
  {
    if SerializeCharacter(a) == SerializeCharacter(b) {
      assert SerializeCharacter(a)["id"] == SerializeCharacter(b)["id"];
      assert SerializeCharacter(a)["name"] == SerializeCharacter(b)["name"];
      TextInjective(a.name, b.name);
    }
  }

  /** The favorites object carries all four columns unchanged, so it determines the row. */
  lemma FavoritesSerializationLossless(a: Favorites, b: Favorites)
    ensures SerializeFavorites(a) == SerializeFavorites(b) <==> a == b
  {
    var ma, mb := SerializeFavorites(a), SerializeFavorites(b);
    if ma == mb {
      assert ma["id"] == mb["id"] && ma["user_id"] == mb["user_id"];
      assert ma["id_planet"] == mb["id_planet"] && ma["id_character"] == mb["id_character"];
      NumberInjective(a.idPlanet, b.idPlanet);
      NumberInjective(a.idCharacter, b.idCharacter);
    }
  }
}
