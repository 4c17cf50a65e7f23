# Restaurants, pizzas and their prices — a Dafny model

This project models the request handlers of a small Flask service. The service
keeps three tables: restaurants (id, name, address), pizzas (id, name,
ingredients), and restaurant–pizza associations (id, price, pizza_id,
restaurant_id). There are four endpoints:

- `GET /restaurants` and `GET /pizzas` list every row, keeping a fixed set of fields.
- `GET /restaurants/<id>` returns a restaurant with a nested list of its associations.
- `DELETE /restaurants/<id>` deletes the restaurant's associations one by one, then the restaurant itself.
- `POST /restaurant_pizzas` makes three checks in a fixed order, and stops at the first that fails.
  First, the referenced pizza and restaurant must both exist (404).
  Second, the (pizza, restaurant) pair must not already have an association (409).
  Third, the price must lie in 1..30 (400).
  Only when all three pass does it insert one row (201).

Layout:

- `models.dfy` (module `Models`): rows as datatypes, and the store `Db` as three tables in
  store order plus the key the database hands to the next association. It also holds the
  lookups (`query.get`, `filter_by(...).first()`), the filters the handlers use, and the store
  invariant `Valid`. `Valid` requires unique primary keys, at most one association per pair,
  every price in 1..30, no association pointing at a missing pizza or restaurant, and every
  association key below the next key.
- `app.dfy` (module `App`): typed responses, one constructor per outcome. `Ok` is 200,
  `Created` 201, `NoContent` 204, `NotFound` 404, `Conflict` 409 and `ValidationError` 400.
  Each body keeps the source's error strings. The three queries are functions of the store.
  The two mutating handlers are the functions `Create` and `Delete`. Each returns a `Step`,
  which holds the new store and the response. The module also has lemmas relating several calls.
- `server.dfy` (module `Server`): class `Store`, whose fields are the three tables and the key
  counter. Its two methods change those fields the way the handlers do: early returns for
  create, and the loop over the restaurant's associations for delete. Each method is proved
  to keep `Valid` and to match `App.Create` and `App.Delete`.

## Model

| member | source | states |
|---|---|---|
| `Models.FindRestaurant` | server/app.py:32-33 | the lookup returns a stored restaurant with the asked id, and returns nothing exactly when no stored restaurant has that id |
| `Models.FindPizza` | server/app.py:79 | the lookup returns a stored pizza with the asked id, and returns nothing exactly when no stored pizza has that id |
| `Models.FindPair` | server/app.py:85-86 | the lookup returns a stored association of the (pizza, restaurant) pair, and returns nothing exactly when the pair has no association |
| `Models.AssocsOf` | server/app.py:46 | a restaurant's associations are exactly the stored associations with its restaurant_id, and they keep store order |
| `Models.AssocsOfCount` | server/app.py:38-47 | the restaurant's association list is as long as the number of associations that reference it |
| `Models.Without` | server/app.py:57-59 | what the delete loop leaves is exactly the associations of other restaurants, in store order |
| `Models.ExceptIds` | server/app.py:59 | deleting rows by primary key keeps exactly the rows whose key is not deleted |
| `Models.RemoveRestaurant` | server/app.py:62 | deleting a restaurant row keeps exactly the other restaurants, in store order |
| `Models.DeleteRowsExceptIds` | server/app.py:58-59 | deleting the rows one after another removes exactly the rows that carry any of their keys |
| `Models.ExceptOwnIds` | server/app.py:57-59 | with unique keys, deleting every association of the restaurant by key leaves exactly the other restaurants' associations |
| `Models.WithoutKeepsUnique` | server/app.py:57-59 | dropping a restaurant's associations keeps key uniqueness and pair uniqueness |
| `Models.RemoveRestaurantKeepsUnique` | server/app.py:62 | dropping a restaurant row keeps restaurant ids unique |
| `Models.AssocsOfAppend` | server/app.py:95-98 | an inserted association becomes the last one of its restaurant |
| `Models.CountForAppend` | server/app.py:95-98 | an insert raises the count of its restaurant's associations by one and leaves the other restaurants' counts alone |
| `App.ListRestaurants` | server/app.py:27 | one entry per restaurant row, in store order, each with exactly that row's id, name and address |
| `App.GetRestaurants` | server/app.py:24-28 | the listing succeeds and holds one {id, name, address} entry per stored restaurant, in store order |
| `App.ListPizzas` | server/app.py:71 | one entry per pizza row, in store order, each with exactly that row's id, name and ingredients |
| `App.GetPizzas` | server/app.py:68-72 | the listing succeeds and holds one {id, name, ingredients} entry per stored pizza, in store order |
| `App.Entries` | server/app.py:38-47 | one nested entry per association, in order: it carries the association's id, price, pizza_id and restaurant_id, plus a stored pizza whose id is that pizza_id |
| `App.GetRestaurant` | server/app.py:31-49 | an absent id gives NotFound "Restaurant not found". Otherwise the detail has the restaurant's fields and one entry per association that references it, in store order. Every entry carries that restaurant_id and the id, name and ingredients of a stored pizza with its pizza_id |
| `App.Create` | server/app.py:75-107 | NotFound when the pizza or the restaurant is missing. Otherwise Conflict when the pair exists, whatever the price. Otherwise ValidationError when the price is outside 1..30. Created exactly when all three checks pass (prices 1 and 30 are accepted); it appends one row with the next key, the given price and ids, and echoes them with the pizza and the restaurant. Every error leaves the store unchanged |
| `App.Delete` | server/app.py:52-65 | an absent id gives NotFound and leaves the store unchanged. Otherwise NoContent: the restaurant is removed, so are exactly its associations, everything else is kept in store order, and the pizzas and the key counter are unchanged |
| `App.CreatePreservesValid` | server/app.py:78-99 | a create keeps every store invariant: unique keys, unique pairs, prices in 1..30, references that resolve, fresh keys |
| `App.DeletePreservesValid` | server/app.py:53-63 | a delete keeps every store invariant; in particular no association is left pointing at the deleted restaurant |
| `App.DeleteThenGetIsNotFound` | server/app.py:51-65 | after a restaurant is deleted, its detail answers NotFound |
| `App.CreateTwiceConflicts` | server/app.py:85-88 | once a pair has been created, creating it again answers Conflict and adds no row, even with a price outside 1..30 |
| `App.CreateExtendsDetail` | server/app.py:95-99 | after a successful create, the restaurant's associations are the previous ones followed by the new row, and their count rises by one |
| `App.ListedExactlyWhenFound` | server/app.py:24-34 | an id appears in the restaurant listing exactly when its detail is found |
| `Server.Store.CreateRestaurantPizza` | server/app.py:75-107 | the imperative create (early returns, then insert) keeps `Valid` and produces the store and the response that `App.Create` gives |
| `Server.Store.DeleteRestaurant` | server/app.py:51-65 | the delete loop over the restaurant's associations, followed by the restaurant's own deletion, keeps `Valid` and produces the store and the response that `App.Delete` gives |

## Left out

- Flask setup, routing, `jsonify`/`make_response`, the `index` HTML banner and `app.run` (server/app.py:9-20, 109-115) are not modelled. They are framework I/O, so HTTP statuses appear only as response constructors.
- SQLAlchemy sessions, `commit`, transactions, `Migrate` and the `DB_URI` lookup are not modelled; they are library calls. A delete's row removals take effect together, the way a single commit applies them. A failure midway through a commit is not modelled.
- Primary keys for new associations come from the database. Here they come from a counter in the store (`Db.nextId`), which models a database that never reuses keys.
- `to_dict` is defined in models.py, which is not part of this model. Each call is modelled as keeping exactly the listed fields.
- The order of `restaurant.restaurant_pizzas` is taken to be store (insertion) order. app.py applies no ordering; the relationship is declared in models.py, which is not part of this model, and is assumed to impose none.
- `App.GetRestaurant` requires that each of the restaurant's associations references a stored pizza. Without one, the source would fail on `None.to_dict`. The store invariant guarantees the pizza exists, and every operation is proved to preserve the invariant.
- Concurrency is not modelled. The race between the duplicate check and the insert is a concurrency concern, and the handlers are modelled one request at a time.
- A missing JSON key (`KeyError`) and a non-integer or floating-point price are not modelled. The request body is a typed record with an integer price.
- Deleting pizzas, and creating or updating restaurants and pizzas, are not exposed by these handlers and are not modelled.
