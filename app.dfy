/**
 * The request handlers of the pizza service, as functions of the store.
 * Each handler yields a typed response: the HTTP status is its tag
 * (Ok 200, Created 201, NoContent 204, NotFound 404, Conflict 409,
 * ValidationError 400) and the JSON body its fields.  The two mutating
 * handlers are given as a `Step`: the store afterwards and the response.
 */
module App {
  import opened Models

  const RestaurantNotFound: string := "Restaurant not found"
  const PizzaOrRestaurantNotFound: string := "Pizza or Restaurant not found"
  const AlreadyExists: string := "RestaurantPizza already exists"
  const ValidationErrors: seq<string> := ["validation errors"]

  /** `restaurant.to_dict(('id', 'name', 'address'))` */
  datatype RestaurantFields = RestaurantFields(id: int, name: string, address: string)

  /** `pizza.to_dict(only=('id', 'name', 'ingredients'))` */
  datatype PizzaFields = PizzaFields(id: int, name: string, ingredients: string)

  /** One element of the nested "restaurant_pizzas" list of a restaurant's detail. */
  datatype RestaurantPizzaEntry = RestaurantPizzaEntry(
    id: int, pizza: PizzaFields, pizzaId: int, price: int, restaurantId: int)

  datatype RestaurantDetail = RestaurantDetail(
    id: int, name: string, address: string, restaurantPizzas: seq<RestaurantPizzaEntry>)

  /** The body of a 201 reply: the new row plus the pizza and restaurant it links. */
  datatype CreatedRestaurantPizza = CreatedRestaurantPizza(
    id: int, price: int, pizzaId: int, restaurantId: int,
    pizza: PizzaFields, restaurant: RestaurantFields)

  datatype Body =
    | Restaurants(restaurants: seq<RestaurantFields>)
    | Pizzas(pizzas: seq<PizzaFields>)
    | Detail(detail: RestaurantDetail)

  datatype Response =
    | Ok(body: Body)
    | Created(created: CreatedRestaurantPizza)
    | NoContent
    | NotFound(error: string)
    | Conflict(error: string)
    | ValidationError(errors: seq<string>)

  /** The JSON body of POST /restaurant_pizzas, already typed. */
  datatype NewRestaurantPizza = NewRestaurantPizza(price: int, pizzaId: int, restaurantId: int)

  datatype Step = Step(next: Db, response: Response)

  function RestaurantToDict(r: Restaurant): RestaurantFields
  {
    RestaurantFields(r.id, r.name, r.address)
  }

  function PizzaToDict(p: Pizza): PizzaFields
  {
    PizzaFields(p.id, p.name, p.ingredients)
  }

  // ---------------------------------------------------------------------
  // GET /restaurants and GET /pizzas
  // ---------------------------------------------------------------------

  /** One serialized entry per restaurant row, in store order. */
  function ListRestaurants(rs: seq<Restaurant>): (r: seq<RestaurantFields>)
    ensures |r| == |rs|
    ensures forall i :: 0 <= i < |r| ==>
      r[i].id == rs[i].id && r[i].name == rs[i].name && r[i].address == rs[i].address
  {
    if rs == [] then [] else [RestaurantToDict(rs[0])] + ListRestaurants(rs[1..])
  }

  /** One serialized entry per pizza row, in store order. */
  function ListPizzas(ps: seq<Pizza>): (r: seq<PizzaFields>)
    ensures |r| == |ps|
    ensures forall i :: 0 <= i < |r| ==>
      r[i].id == ps[i].id && r[i].name == ps[i].name && r[i].ingredients == ps[i].ingredients
  {
    if ps == [] then [] else [PizzaToDict(ps[0])] + ListPizzas(ps[1..])
  }

  function GetRestaurants(db: Db): (r: Response)
    ensures r.Ok? && r.body.Restaurants?
    ensures |r.body.restaurants| == |db.restaurants|
    ensures forall i :: 0 <= i < |db.restaurants| ==>
      r.body.restaurants[i] == RestaurantFields(db.restaurants[i].id, db.restaurants[i].name, db.restaurants[i].address)
  {
    Ok(Restaurants(ListRestaurants(db.restaurants)))
  }

  function GetPizzas(db: Db): (r: Response)
    ensures r.Ok? && r.body.Pizzas?
    ensures |r.body.pizzas| == |db.pizzas|
    ensures forall i :: 0 <= i < |db.pizzas| ==>
      r.body.pizzas[i] == PizzaFields(db.pizzas[i].id, db.pizzas[i].name, db.pizzas[i].ingredients)
  {
    Ok(Pizzas(ListPizzas(db.pizzas)))
  }

  // ---------------------------------------------------------------------
  // GET /restaurants/<id>
  // ---------------------------------------------------------------------

  /** The nested list: each association with the pizza it references. */
  function Entries(ps: seq<Pizza>, rps: seq<RestaurantPizza>): (r: seq<RestaurantPizzaEntry>)
    requires forall a :: a in rps ==> FindPizza(ps, a.pizzaId).Some?
    ensures |r| == |rps|
    ensures forall i :: 0 <= i < |r| ==>
      && r[i].id == rps[i].id && r[i].pizzaId == rps[i].pizzaId
      && r[i].price == rps[i].price && r[i].restaurantId == rps[i].restaurantId
      && r[i].pizza.id == rps[i].pizzaId
      && (exists p :: p in ps && PizzaToDict(p) == r[i].pizza)
  {
    if rps == [] then []
    else
      var p := FindPizza(ps, rps[0].pizzaId).value;
      var e := RestaurantPizzaEntry(rps[0].id, PizzaToDict(p), rps[0].pizzaId, rps[0].price, rps[0].restaurantId);
      [e] + Entries(ps, rps[1..])
  }

  /**
   * The detail of one restaurant.  The source reads the pizza of every
   * association of the restaurant, so those pizzas must exist; the store
   * invariant `ReferencesExist` guarantees it.
   */
  function GetRestaurant(db: Db, id: int): (r: Response)
    requires forall a :: a in db.restaurantPizzas && a.restaurantId == id ==> FindPizza(db.pizzas, a.pizzaId).Some?
    ensures r.NotFound? <==> forall x :: x in db.restaurants ==> x.id != id
    ensures r.NotFound? ==> r.error == RestaurantNotFound
    ensures !r.NotFound? ==> r.Ok? && r.body.Detail?
    ensures r.Ok? ==>
      var d := r.body.detail;
      var own := AssocsOf(db.restaurantPizzas, id);
      && d.id == id
      && (exists x :: x in db.restaurants && x == Restaurant(id, d.name, d.address))
      && |d.restaurantPizzas| == CountFor(db.restaurantPizzas, id)
      && |d.restaurantPizzas| == |own|
      && (forall i :: 0 <= i < |own| ==>
            && d.restaurantPizzas[i].id == own[i].id
            && d.restaurantPizzas[i].price == own[i].price
            && d.restaurantPizzas[i].pizzaId == own[i].pizzaId)
      && (forall e :: e in d.restaurantPizzas ==>
            && e.restaurantId == id && e.pizza.id == e.pizzaId
            && (exists p :: p in db.pizzas && PizzaToDict(p) == e.pizza))
  {
    match FindRestaurant(db.restaurants, id)
    case None => NotFound(RestaurantNotFound)
    case Some(x) =>
      var own := AssocsOf(db.restaurantPizzas, id);
      AssocsOfCount(db.restaurantPizzas, id);
      Ok(Detail(RestaurantDetail(x.id, x.name, x.address, Entries(db.pizzas, own))))
  }

  // ---------------------------------------------------------------------
  // POST /restaurant_pizzas
  // ---------------------------------------------------------------------

  /**
   * Three checks, in this order, each answering on its own: both referenced
   * rows exist, the pair is new, the price is within 1..30.  Only then is one
   * row inserted.
   */
  function Create(db: Db, req: NewRestaurantPizza): (s: Step)
    ensures (forall p :: p in db.pizzas ==> p.id != req.pizzaId)
         || (forall x :: x in db.restaurants ==> x.id != req.restaurantId)
        ==> s == Step(db, NotFound(PizzaOrRestaurantNotFound))
    ensures (exists p :: p in db.pizzas && p.id == req.pizzaId)
         && (exists x :: x in db.restaurants && x.id == req.restaurantId)
         && (exists a :: a in db.restaurantPizzas && a.pizzaId == req.pizzaId && a.restaurantId == req.restaurantId)
        ==> s == Step(db, Conflict(AlreadyExists))
    ensures (exists p :: p in db.pizzas && p.id == req.pizzaId)
         && (exists x :: x in db.restaurants && x.id == req.restaurantId)
         && (forall a :: a in db.restaurantPizzas ==> !(a.pizzaId == req.pizzaId && a.restaurantId == req.restaurantId))
         && (req.price < MinPrice || req.price > MaxPrice)
        ==> s == Step(db, ValidationError(ValidationErrors))
    ensures s.response.Created? <==>
      ((exists p :: p in db.pizzas && p.id == req.pizzaId)
       && (exists x :: x in db.restaurants && x.id == req.restaurantId)
       && (forall a :: a in db.restaurantPizzas ==> !(a.pizzaId == req.pizzaId && a.restaurantId == req.restaurantId))
       && MinPrice <= req.price <= MaxPrice)
    ensures s.response.Created? ==>
      var row := RestaurantPizza(db.nextId, req.price, req.pizzaId, req.restaurantId);
      var c := s.response.created;
      && s.next == db.(restaurantPizzas := db.restaurantPizzas + [row], nextId := db.nextId + 1)
      && c.id == db.nextId && c.price == req.price
      && c.pizzaId == req.pizzaId && c.restaurantId == req.restaurantId
      && c.pizza.id == req.pizzaId && c.restaurant.id == req.restaurantId
      && (exists p :: p in db.pizzas && PizzaToDict(p) == c.pizza)
      && (exists x :: x in db.restaurants && RestaurantToDict(x) == c.restaurant)
    ensures !s.response.Created? ==> s.next == db
  {
    var pizza := FindPizza(db.pizzas, req.pizzaId);
    var restaurant := FindRestaurant(db.restaurants, req.restaurantId);
    if pizza.None? || restaurant.None? then
      Step(db, NotFound(PizzaOrRestaurantNotFound))
    else if FindPair(db.restaurantPizzas, req.pizzaId, req.restaurantId).Some? then
      Step(db, Conflict(AlreadyExists))
    else if req.price < MinPrice || req.price > MaxPrice then
      Step(db, ValidationError(ValidationErrors))
    else
      var row := RestaurantPizza(db.nextId, req.price, req.pizzaId, req.restaurantId);
      var created := CreatedRestaurantPizza(
        row.id, row.price, row.pizzaId, row.restaurantId,
        PizzaToDict(pizza.value), RestaurantToDict(restaurant.value));
      Step(db.(restaurantPizzas := db.restaurantPizzas + [row], nextId := db.nextId + 1), Created(created))
  }

  // ---------------------------------------------------------------------
  // DELETE /restaurants/<id>
  // ---------------------------------------------------------------------

  /** Drops the restaurant's associations, then the restaurant. */
  function Delete(db: Db, id: int): (s: Step)
    ensures (forall x :: x in db.restaurants ==> x.id != id) ==> s == Step(db, NotFound(RestaurantNotFound))
    ensures (exists x :: x in db.restaurants && x.id == id) ==>
      && s.response == NoContent
      && s.next.pizzas == db.pizzas
      && s.next.nextId == db.nextId
      && (forall x :: x in s.next.restaurants <==> x in db.restaurants && x.id != id)
      && (forall a :: a in s.next.restaurantPizzas <==> a in db.restaurantPizzas && a.restaurantId != id)
      && IsSubsequence(s.next.restaurants, db.restaurants)
      && IsSubsequence(s.next.restaurantPizzas, db.restaurantPizzas)
  {
    if FindRestaurant(db.restaurants, id).None? then
      Step(db, NotFound(RestaurantNotFound))
    else
      Step(Db(RemoveRestaurant(db.restaurants, id), db.pizzas, Without(db.restaurantPizzas, id), db.nextId), NoContent)
  }

  // ---------------------------------------------------------------------
  // Properties that relate several calls
  // ---------------------------------------------------------------------

  /** A create keeps every store invariant. */
  lemma CreatePreservesValid(db: Db, req: NewRestaurantPizza)
    requires Valid(db)
    ensures Valid(Create(db, req).next)
  {
  }

  /** A delete keeps every store invariant: in particular no association is left orphaned. */
  lemma DeletePreservesValid(db: Db, id: int)
    requires Valid(db)
    ensures Valid(Delete(db, id).next)
  {
    var s := Delete(db, id);
    if s.response == NoContent {
      WithoutKeepsUnique(db.restaurantPizzas, id);
      RemoveRestaurantKeepsUnique(db.restaurants, id);
      forall a | a in s.next.restaurantPizzas
        ensures FindRestaurant(s.next.restaurants, a.restaurantId).Some?
      {
        var x := FindRestaurant(db.restaurants, a.restaurantId).value;
        assert x in s.next.restaurants;
      }
    }
  }

  /** After a successful delete, the restaurant's detail is not found. */
  lemma DeleteThenGetIsNotFound(db: Db, id: int)
    requires (exists x :: x in db.restaurants && x.id == id)
    ensures GetRestaurant(Delete(db, id).next, id) == NotFound(RestaurantNotFound)
  {
  }

  /**
   * Creating the same pair a second time answers Conflict and adds no row,
   * whatever the second price, even one outside 1..30.
   */
  lemma CreateTwiceConflicts(db: Db, req: NewRestaurantPizza, price: int)
    requires Create(db, req).response.Created?
    ensures var again := NewRestaurantPizza(price, req.pizzaId, req.restaurantId);
            var next := Create(db, req).next;
            Create(next, again) == Step(next, Conflict(AlreadyExists))
  {
  }

  /**
   * A successful create makes the new row the last entry of its restaurant's
   * detail, after the entries that were there before.
   */
  lemma CreateExtendsDetail(db: Db, req: NewRestaurantPizza)
    requires Create(db, req).response.Created?
    ensures var next := Create(db, req).next;
            var row := RestaurantPizza(db.nextId, req.price, req.pizzaId, req.restaurantId);
            && AssocsOf(next.restaurantPizzas, req.restaurantId) == AssocsOf(db.restaurantPizzas, req.restaurantId) + [row]
            && CountFor(next.restaurantPizzas, req.restaurantId) == CountFor(db.restaurantPizzas, req.restaurantId) + 1
  {
    var row := RestaurantPizza(db.nextId, req.price, req.pizzaId, req.restaurantId);
    AssocsOfAppend(db.restaurantPizzas, row);
    CountForAppend(db.restaurantPizzas, row, req.restaurantId);
  }

  /** Every restaurant in the listing has a detail, and only those do. */
  lemma ListedExactlyWhenFound(db: Db, id: int)
    requires ReferencesExist(db)
    ensures (exists e :: e in GetRestaurants(db).body.restaurants && e.id == id) <==> GetRestaurant(db, id).Ok?
  {
    var listed := GetRestaurants(db).body.restaurants;
    if GetRestaurant(db, id).Ok? {
      var x := FindRestaurant(db.restaurants, id).value;
      var i :| 0 <= i < |db.restaurants| && db.restaurants[i] == x;
      assert listed[i].id == id;
    }
  }
}
