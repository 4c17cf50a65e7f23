/**
 * The store as the handlers see it: three tables and the association key
 * counter, updated in place by the two mutating handlers.  Each method is
 * proved against the matching function of module App.
 */
module Server {
  import opened Models
  import opened App

  class Store {
    var restaurants: seq<Restaurant>
    var pizzas: seq<Pizza>
    var restaurantPizzas: seq<RestaurantPizza>
    var nextId: int

    function State(): Db
      reads this
    {
      Db(restaurants, pizzas, restaurantPizzas, nextId)
    }

    predicate Valid()
      reads this
    {
      Models.Valid(State())
    }

    constructor (db: Db)
      requires Models.Valid(db)
      ensures Valid() && State() == db
    {
      restaurants := db.restaurants;
      pizzas := db.pizzas;
      restaurantPizzas := db.restaurantPizzas;
      nextId := db.nextId;
    }

    /** POST /restaurant_pizzas: validate, then insert one row. */
    method CreateRestaurantPizza(req: NewRestaurantPizza) returns (r: Response)
      requires Valid()
      modifies this
      ensures Valid()
      ensures Step(State(), r) == Create(old(State()), req)
    {
      CreatePreservesValid(State(), req);
      var pizza := FindPizza(pizzas, req.pizzaId);
      var restaurant := FindRestaurant(restaurants, req.restaurantId);
      if pizza.None? || restaurant.None? {
        return NotFound(PizzaOrRestaurantNotFound);
      }

      var existing := FindPair(restaurantPizzas, req.pizzaId, req.restaurantId);
      if existing.Some? {
        return Conflict(AlreadyExists);
      }

      if req.price < MinPrice || req.price > MaxPrice {
        return ValidationError(ValidationErrors);
      }

      var row := RestaurantPizza(nextId, req.price, req.pizzaId, req.restaurantId);
      restaurantPizzas := restaurantPizzas + [row];
      nextId := nextId + 1;

      r := Created(CreatedRestaurantPizza(
        row.id, row.price, row.pizzaId, row.restaurantId,
        PizzaToDict(pizza.value), RestaurantToDict(restaurant.value)));
    }

    /** DELETE /restaurants/<id>: delete the restaurant's associations one by one, then the restaurant. */
    method DeleteRestaurant(id: int) returns (r: Response)
      requires Valid()
      modifies this
      ensures Valid()
      ensures Step(State(), r) == Delete(old(State()), id)
    {
      DeletePreservesValid(State(), id);
      var restaurant := FindRestaurant(restaurants, id);
      if restaurant.None? {
        return NotFound(RestaurantNotFound);
      }

      // The session collects the deletions; the commit writes them with the restaurant's.
      var table := restaurantPizzas;
      var owned := AssocsOf(table, id);
      ExceptOwnIds(table, id);
      var remaining := table;
      var i := 0;
      while i < |owned|
        invariant 0 <= i <= |owned|
        invariant DeleteRows(remaining, owned[i..]) == DeleteRows(table, owned)
      {
        assert owned[i..][1..] == owned[i + 1..];
        remaining := ExceptIds(remaining, {owned[i].id});
        i := i + 1;
      }
      assert owned[i..] == [];

      restaurantPizzas := remaining;
      restaurants := RemoveRestaurant(restaurants, id);
      r := NoContent;
    }
  }
}
