# StarWars REST API: the request handlers over an in-memory store

This project models the core of a small REST backend. The backend keeps users, planets,
characters and a favorites table. A favorites row links one user to a planet or to a
character. Each write handler runs one or two existence lookups ("check"). It then either
answers with a status and a message and leaves the database alone, or it inserts or deletes
rows ("write").

The database is the class `Store.Database`. It holds four tables, each a sequence of records
in insertion order, and a counter that hands out fresh ids. Each handler is a method of that
class. Its postcondition gives the reply and the exact new contents of every table. An ORM
lookup `filter_by(...).first()` is `Tables.FirstMatch`: the first matching row, or none.
Each lookup in `Queries` is proved to decide an existence predicate.

The store invariant `Database.Valid()` holds for the empty store. Every handler keeps it. It
says four things:

- ids are below the counter and increase in insertion order;
- no two users share an email;
- no two planets, and no two characters, share a name;
- no favorites pairing (one user with one planet, or one user with one character) is
  recorded twice.

The last fact is not checked by the favorites handlers directly. It follows from the coarse
creation guard, which is stronger than needed (`FavoriteRules.CoarseCoversExact`).

Modules:

- `tables.dfy`: first match, row removal and filtering, and pairwise invariants of a table.
- `models.dfy`: the four records and their `serialize` maps.
- `queries.dfy`: the lookups and the relations a table's rows must satisfy.
- `favorites.dfy`: the favorites rules and their lemmas.
- `store.dfy`: the database class and its handlers.
- `scenarios.dfy`: request sequences with their proved outcomes.

Replies are `Store.Reply` values:

- `Message(status, msg)` is a `{"msg": ...}` body.
- `Body` and `Listing` carry serialized records.
- `Raised(404, msg)` is an `APIException` raised by a delete handler.
- `Crash` is an uncaught exception, which the server answers with 500.

Three behaviours of the code that are easy to misread:

- Deleting a planet or a character does not leave favorites rows pointing at it. The
  relationships `Planet.planet` and `Character.character` have no delete cascade. With no
  delete cascade, SQLAlchemy's unit of work sets the child's foreign key to null when the
  parent is deleted. So the rows stay, but their `id_planet` or `id_character` becomes null
  (`FavoriteRules.DetachAll`). A favorites row with both columns null can come about this way.
- When the delete-favorite guard passes but no row pairs that user with that target, the
  handler calls `db.session.delete(None)`. That raises an exception, so the outcome is
  `Crash`. The handler does not silently succeed.
- A GET of a missing id calls `serialize` on `None`, so the outcome is again `Crash`.

## Model

| member | source | states |
|---|---|---|
| `Tables.FirstMatch` | src/main.py:143 | `.first()`: None exactly when no row matches. Otherwise the index of a matching row with no matching row before it. |
| `Models.SerializeUser` | src/models.py:17-25 | The object has exactly the keys id, username, name, lastname and email. `password` is not among them. |
| `Models.SerializePlanet` | src/models.py:35-40 | The object has exactly the keys id and name. |
| `Models.SerializeCharacter` | src/models.py:50-55 | The object has exactly the keys id and name. |
| `Models.SerializeFavorites` | src/models.py:67-73 | The object has exactly the keys id, user_id, id_planet and id_character. |
| `Models.UserSerializationHidesOnlyPassword` | src/models.py:17-25 | Two users serialize alike if and only if they agree on every column except the password. So every public column is carried and nothing of the password leaks. |
| `Models.PlanetSerializationLossless` | src/models.py:35-40 | Two planets serialize alike if and only if they are equal. |
| `Models.CharacterSerializationLossless` | src/models.py:50-55 | Two characters serialize alike if and only if they are equal. |
| `Models.FavoritesSerializationLossless` | src/models.py:67-73 | Two favorites rows serialize alike if and only if they are equal. |
| `Models.UserSerializationFields` | src/models.py:17-25 | id, username, name, lastname and email each appear unchanged under their own key. |
| `Models.PlanetSerializationFields` | src/models.py:35-40 | id and name each appear unchanged under their own key. |
| `Models.CharacterSerializationFields` | src/models.py:50-55 | id and name each appear unchanged under their own key. |
| `Models.FavoritesSerializationFields` | src/models.py:67-73 | All four columns (id, user_id, id_planet, id_character) appear unchanged under their own keys. |
| `Queries.UserById` | src/main.py:54 | None if and only if no user has that id; otherwise the index of a user with that id. |
| `Queries.UserWithEmail` | src/main.py:143 | None if and only if no user has that email; otherwise the index of a user with it. |
| `Queries.PlanetById` | src/main.py:103 | None if and only if no planet has that id; otherwise the index of a planet with it. |
| `Queries.PlanetWithName` | src/main.py:182 | None if and only if no planet has that name (null matches null); otherwise the index of one that does. |
| `Queries.CharacterById` | src/main.py:78 | None if and only if no character has that id; otherwise the index of one that does. |
| `Queries.CharacterWithName` | src/main.py:216 | None if and only if no character has that name; otherwise the index of one that does. |
| `Queries.FavoriteById` | src/main.py:128 | None if and only if no favorites row has that id; otherwise the index of one that does. |
| `Queries.FirstFavoriteOfUser` | src/main.py:247 | None if and only if the user has no favorites row; otherwise the index of one of theirs. |
| `Queries.FirstFavoriteOf` | src/main.py:248 | None if and only if no row, of any user, references the target; otherwise the index of one that does. |
| `Queries.FirstPairing` | src/main.py:467 | None if and only if no single row pairs the user with the target; otherwise the index of such a row. |
| `Queries.RemoveUserKeepsTable` | src/main.py:361-376 | Removing a user leaves the other users with increasing ids, distinct emails and ids below the counter. |
| `FavoriteRules.NewFavorite` | src/main.py:256 | The inserted row has the fresh id and the user. It references the requested target and no other target (the other column is null). |
| `FavoriteRules.FreshSideAccepted` | src/main.py:250 | A user with no favorites, or a target nobody has favorited, always passes the creation guard. |
| `FavoriteRules.CoarseCoversExact` | src/main.py:250 | If the exact pairing is already recorded, the creation guard rejects it. |
| `FavoriteRules.RepeatRejected` | src/main.py:283 | After a successful creation, the same request is rejected, because the new row satisfies both lookups. |
| `FavoriteRules.NewFavoriteCompatible` | src/main.py:289 | A row appended after the guard passes repeats no recorded pairing, and its id is above every stored id. |
| `FavoriteRules.PairGoneAfterRemove` | src/main.py:467-469 | In a table with no repeated pairing, removing the first row with a pairing leaves no row with that pairing. |
| `FavoriteRules.CascadeUser` | src/models.py:12 | The favorites surviving a user's deletion are exactly the rows of other users, each kept as many times as it occurs, and none of that user's rows remain. |
| `FavoriteRules.CascadeUserKeepsTable` | src/models.py:12 | The favorites that survive a user's deletion repeat no pairing and keep their ids below the counter. |
| `Tables.FilterCounts` | src/models.py:12 | The delete-orphan cascade keeps each surviving row as many times as it occurs and drops every other: the count of a row after filtering is its count before if it is kept, else zero. |
| `FavoriteRules.DetachAll` | src/models.py:30 | Deleting a planet or a character keeps every favorites row and its id, user and other target. Only a reference to the deleted target is cleared. No row references it afterwards. |
| `FavoriteRules.DetachAllCompatible` | src/models.py:45 | Clearing a reference keeps the table free of repeated pairings and keeps ids increasing. |
| `FavoriteRules.CoarseCheckRejectsNewPair` | src/main.py:247-254 | The creation guard rejects a pairing that is not recorded (user 1, who favors character 5, asking for character 7, which only user 2 favors). |
| `FavoriteRules.DeleteGuardAdmitsMissingPair` | src/main.py:458-468 | The deletion guard can pass although no row pairs the user with the target (user 1 favors planet 3 and asks to drop planet 4). |
| `FavoriteRules.NothingToDeleteMeansNoPair` | src/main.py:461-465 | When both guard lookups come back empty, no row pairs the user with the target either, so the 400 answer never hides a recorded pairing. |
| `FavoriteRules.RemovePairingKeepsTable` | src/main.py:467-469 | Removing a row that records a pairing keeps the table free of repeated pairings, keeps every id below the counter, and leaves that pairing unrecorded. |
| `FavoriteRules.ExactRuleAdmitsNewPairs` | src/main.py:247-258 | Appending an unrecorded pairing keeps the table free of repeats and records that pairing. |
| `Store.Database.GetUsers` | src/main.py:41-49 | Every user serialized, in table order, and no item has a password. |
| `Store.Database.GetPlanets` | src/main.py:87-96 | Every planet serialized, in table order. |
| `Store.Database.GetCharacters` | src/main.py:63-71 | Every character serialized, in table order. |
| `Store.Database.GetFavorites` | src/main.py:112-121 | Every favorites row serialized, in table order. |
| `Store.Database.GetUser` | src/main.py:51-57 | 200 with a user of that id serialized (without password) if and only if the id is present; otherwise a crash. |
| `Store.Database.GetPlanet` | src/main.py:98-106 | 200 with a planet of that id serialized if and only if the id is present; otherwise a crash. |
| `Store.Database.GetCharacter` | src/main.py:73-81 | 200 with a character of that id serialized if and only if the id is present; otherwise a crash. |
| `Store.Database.GetFavorite` | src/main.py:123-131 | 200 with a favorites row of that id serialized if and only if the id is present; otherwise a crash. |
| `Store.Database.CreateUser` | src/main.py:137-170 | If the email is taken: 400 "User email already exists" and nothing changes. Otherwise: exactly one user with the given columns and a fresh id is appended, 200 "New user created". Either way the email is then taken, and emails stay unique. |
| `Store.Database.CreatePlanet` | src/main.py:176-203 | The same rule on the name: 400 "Planet already exists" with nothing changed, or one planet appended, 200 "New planet created". |
| `Store.Database.CreateCharacter` | src/main.py:210-237 | The same rule on the name: 400 "character already exists" with nothing changed, or one character appended, 200 "New character created". |
| `Store.Database.CreateFavorite` | src/main.py:244-296 | 400 with nothing changed exactly when the user has some favorite and the target is favorited by someone. Otherwise exactly one new row (user, target, other column null) is appended with 200. Other tables are untouched. |
| `Store.Database.DeleteUser` | src/main.py:361-376 | Absent id: 404 raised, nothing changes. Otherwise the user's row and every favorites row of that user are removed, and nothing else; 200. |
| `Store.Database.DeletePlanet` | src/main.py:384-399 | Absent id: 404 raised, nothing changes. Otherwise only that planet is removed, and favorites rows referencing it lose the reference; 200. |
| `Store.Database.DeleteCharacter` | src/main.py:407-422 | Absent id: 404 raised, nothing changes. Otherwise only that character is removed, and favorites rows referencing it lose the reference; 200. |
| `Store.Database.DeleteFavorite` | src/main.py:430-448 | Absent id: 404 "Favorite not found", nothing changes. Otherwise exactly that row is removed; every other row and table is untouched; 200. |
| `Store.Database.DeleteFavoriteOf` | src/main.py:455-507 | No row for the user and none for the target: 400, nothing changes. Guard passed but no exact pairing: crash, nothing changes. Otherwise the first row with the pairing is removed and the pairing is gone; 200. |
| `Store.Database.CreateFavoriteExact` | src/main.py:244-263 | Corrected creation: 400 exactly when the pairing is already recorded; otherwise the row is appended. Afterwards the pairing is recorded. |
| `Store.Database.DeleteFavoriteExact` | src/main.py:455-474 | Corrected deletion: never crashes. 400 with nothing changed when the pairing is missing; otherwise its row is removed. Afterwards the pairing is absent. |
| `Scenarios.CreateThenGetUser` | src/main.py:137-170 | A created user reads back with every public column and no password. A second creation with the same email gets 400, and one user row remains. |
| `Scenarios.FavoritePlanetTwice` | src/main.py:277-296 | Favoriting a planet gets 200, the identical repeat gets 400, and deleting the pairing gets 200 and empties the table. |
| `Scenarios.DeleteCharacterDetaches` | src/main.py:407-419 | With a user and a character stored and the user favoring it, deleting the character leaves the favorites row with `id_character` null. |
| `Scenarios.DeleteUserCascades` | src/main.py:361-373 | With two users both favoring a stored planet, deleting the first user removes that user's row and keeps the other user's. |

## Left out

- Flask setup, routes, CORS, migrations, the admin panel, the sitemap and the server bootstrap: framework glue.
- JSON parsing of request bodies and `jsonify`. Fields are method parameters and replies are `Reply` values. A body missing a key raises a `KeyError` (a 500) when that key is read, and this is not modelled. For `create_planet` and `create_character` the only key, `name`, is read before the lookup. For `create_user` only `email` is read before the lookup; `username`, `name`, `lastname` and `password` are read only when a user is about to be inserted. So a body missing one of those with a taken email still gets 400 "User email already exists", and with a free email it fails after the lookup.
- The JSON shape of an `APIException` reply. The `utils` module is not part of this model; the reply is `Raised(404, message)`.
- Id generation. One counter shared by the four tables gives fresh ids that are never reused. The values a database engine would pick, and any reuse of a freed id, are not modelled.
- `String(250)` length limits. A null email or password would be rejected at commit; here those parameters are non-null strings.
- Foreign-key enforcement at commit, which depends on the database engine. Favorites may name users, planets or characters that do not exist, as the handlers do not check them.
- Commit and transaction semantics, and concurrency. The check-then-write race on emails, names and pairings needs concurrent requests, and the model is sequential.
- Database collation and integer width. Lookups compare strings exactly, as a case-sensitive collation does (PostgreSQL, SQLite). Under a collation that ignores case or trailing spaces (MySQL's default), the email and name probes at src/main.py:143, 182 and 216 match more rows, so "A@X.com" would be refused where `Store.Database.CreateUser` accepts it. Ids are unbounded `nat`; the `Integer` id columns are 32-bit, and an id outside that range (a path parameter such as 3000000000) fails at commit with a 500 where the model appends the row.
- The row order behind `.first()` and `.all()` with no `order_by` (the lookups, and the listings at src/main.py:46, 68, 92 and 117): taken to be insertion order.
- `print` calls, `__repr__`, code after `return` or `raise`, and the commented-out `create_favorites` handler.
- `Store.Database.CreateFavorite`: one method models both `create_favorite_character` and `create_favorite_planet`, selected by the target kind. `Store.Database.DeleteFavoriteOf` does the same for the two pairing deletes.
- Every write handler requires the store invariant `Valid()`: unique emails and names, increasing ids, no repeated favorites pairing. It holds for the empty store and every handler keeps it, but only while these handlers are the only writers and run one at a time. Concurrent requests, or writes through the admin panel, can break it. The postconditions that rest on it are the uniqueness of what the lookups find and `Store.Database.DeleteFavoriteOf`'s "the pairing is gone afterwards".

## Findings

| source | as written | input that shows it | evidently intended | confidence | as-written member | corrected member |
|---|---|---|---|---|---|---|
| src/main.py:247-254 | rejects when the user has any favorite AND the character is favorited by anyone, in possibly different rows | user 1 favors character 5, user 2 favors character 7; POST /favorites/character/1/7 answers 400 | reject only when user 1 already favors character 7 | high; not executed | `FavoriteRules.CoarseCheckRejectsNewPair` | `Store.Database.CreateFavoriteExact` |
| src/main.py:458-469 | passes the guard when either lookup finds a row, then deletes the exact-pair lookup's result without a None check | user 1 favors planet 3; DELETE /favorites/planet/1/4 calls `db.session.delete(None)`, which raises | answer "not found" when no row pairs the user with the planet | high; not executed | `FavoriteRules.DeleteGuardAdmitsMissingPair` | `Store.Database.DeleteFavoriteExact` |
