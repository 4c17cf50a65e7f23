/**
 * The three tables of the pizza service and the rules the request handlers
 * keep about them.  A table is a sequence of rows in store (insertion) order;
 * a row is a value holding its columns.
 */
module Models {

  datatype Option<T> = None | Some(value: T)

  datatype Restaurant = Restaurant(id: int, name: string, address: string)

  datatype Pizza = Pizza(id: int, name: string, ingredients: string)

  /** The association "this restaurant sells this pizza at this price". */
  datatype RestaurantPizza = RestaurantPizza(id: int, price: int, pizzaId: int, restaurantId: int)

  /**
   * The whole store.  `nextId` is the primary key the database hands to the
   * next association row it inserts.
   */
  datatype Db = Db(
    restaurants: seq<Restaurant>,
    pizzas: seq<Pizza>,
    restaurantPizzas: seq<RestaurantPizza>,
    nextId: int)

  const MinPrice: int := 1
  const MaxPrice: int := 30

  // ---------------------------------------------------------------------
  // Lookups: `Model.query.get(id)` and `filter_by(...).first()`
  // ---------------------------------------------------------------------

  function FindRestaurant(rs: seq<Restaurant>, id: int): (r: Option<Restaurant>)
    ensures r.Some? ==> r.value in rs && r.value.id == id
    ensures r.None? <==> forall x :: x in rs ==> x.id != id
  {
    if rs == [] then None
    else if rs[0].id == id then Some(rs[0])
    else FindRestaurant(rs[1..], id)
  }

  function FindPizza(ps: seq<Pizza>, id: int): (r: Option<Pizza>)
    ensures r.Some? ==> r.value in ps && r.value.id == id
    ensures r.None? <==> forall p :: p in ps ==> p.id != id
  {
    if ps == [] then None
    else if ps[0].id == id then Some(ps[0])
    else FindPizza(ps[1..], id)
  }

  /** The first association of the given (pizza, restaurant) pair, if any. */
  function FindPair(rps: seq<RestaurantPizza>, pizzaId: int, restaurantId: int): (r: Option<RestaurantPizza>)
    ensures r.Some? ==> r.value in rps && r.value.pizzaId == pizzaId && r.value.restaurantId == restaurantId
    ensures r.None? <==> forall a :: a in rps ==> !(a.pizzaId == pizzaId && a.restaurantId == restaurantId)
  {
    if rps == [] then None
    else if rps[0].pizzaId == pizzaId && rps[0].restaurantId == restaurantId then Some(rps[0])
    else FindPair(rps[1..], pizzaId, restaurantId)
  }

  // ---------------------------------------------------------------------
  // Filters over the association and restaurant tables
  // ---------------------------------------------------------------------

  /** `a` is `b` with some rows left out, the rest in their original order. */
  predicate IsSubsequence<T(==)>(a: seq<T>, b: seq<T>)
    decreases |b|
  {
    if a == [] then true
    else if b == [] then false
    else (a[0] == b[0] && IsSubsequence(a[1..], b[1..])) || IsSubsequence(a, b[1..])
  }

  /** The relationship `restaurant.restaurant_pizzas`: the restaurant's associations in store order. */
  function AssocsOf(rps: seq<RestaurantPizza>, restaurantId: int): (r: seq<RestaurantPizza>)
    ensures forall a :: a in r <==> a in rps && a.restaurantId == restaurantId
    ensures IsSubsequence(r, rps)
  {
    if rps == [] then []
    else if rps[0].restaurantId == restaurantId then [rps[0]] + AssocsOf(rps[1..], restaurantId)
    else AssocsOf(rps[1..], restaurantId)
  }

  /** The associations that do not belong to the given restaurant, in store order. */
  function Without(rps: seq<RestaurantPizza>, restaurantId: int): (r: seq<RestaurantPizza>)
    ensures forall a :: a in r <==> a in rps && a.restaurantId != restaurantId
    ensures IsSubsequence(r, rps)
  {
    if rps == [] then []
    else if rps[0].restaurantId != restaurantId then [rps[0]] + Without(rps[1..], restaurantId)
    else Without(rps[1..], restaurantId)
  }

  /** The association table after deleting the rows whose primary key is in `ids`. */
  function ExceptIds(rps: seq<RestaurantPizza>, ids: set<int>): (r: seq<RestaurantPizza>)
    ensures forall a :: a in r <==> a in rps && a.id !in ids
  {
    if rps == [] then []
    else if rps[0].id !in ids then [rps[0]] + ExceptIds(rps[1..], ids)
    else ExceptIds(rps[1..], ids)
  }

  /** The restaurant table after deleting the rows with the given primary key. */
  function RemoveRestaurant(rs: seq<Restaurant>, id: int): (r: seq<Restaurant>)
    ensures forall x :: x in r <==> x in rs && x.id != id
    ensures IsSubsequence(r, rs)
  {
    if rs == [] then []
    else if rs[0].id != id then [rs[0]] + RemoveRestaurant(rs[1..], id)
    else RemoveRestaurant(rs[1..], id)
  }

  function AssocIds(rps: seq<RestaurantPizza>): set<int>
  {
    set a | a in rps :: a.id
  }

  /** The association table after `session.delete` of each row of `rows`, first to last. */
  function DeleteRows(rps: seq<RestaurantPizza>, rows: seq<RestaurantPizza>): seq<RestaurantPizza>
    decreases |rows|
  {
    if rows == [] then rps else DeleteRows(ExceptIds(rps, {rows[0].id}), rows[1..])
  }

  /** The number of associations that reference the restaurant. */
  function CountFor(rps: seq<RestaurantPizza>, restaurantId: int): nat
  {
    if rps == [] then 0
    else (if rps[0].restaurantId == restaurantId then 1 else 0) + CountFor(rps[1..], restaurantId)
  }

  // ---------------------------------------------------------------------
  // Store invariants
  // ---------------------------------------------------------------------

  predicate UniqueRestaurantIds(rs: seq<Restaurant>)
  {
    forall i, j :: 0 <= i < j < |rs| ==> rs[i].id != rs[j].id
  }

  predicate UniquePizzaIds(ps: seq<Pizza>)
  {
    forall i, j :: 0 <= i < j < |ps| ==> ps[i].id != ps[j].id
  }

  predicate UniqueAssocIds(rps: seq<RestaurantPizza>)
  {
    forall i, j :: 0 <= i < j < |rps| ==> rps[i].id != rps[j].id
  }

  /** At most one association per (pizza, restaurant) pair. */
  predicate UniquePairs(rps: seq<RestaurantPizza>)
  {
    forall i, j :: 0 <= i < j < |rps| ==>
      !(rps[i].pizzaId == rps[j].pizzaId && rps[i].restaurantId == rps[j].restaurantId)
  }

  predicate PricesInRange(rps: seq<RestaurantPizza>)
  {
    forall a :: a in rps ==> MinPrice <= a.price <= MaxPrice
  }

  /** No association references a missing restaurant or a missing pizza. */
  predicate ReferencesExist(db: Db)
  {
    forall a :: a in db.restaurantPizzas ==>
      FindPizza(db.pizzas, a.pizzaId).Some? && FindRestaurant(db.restaurants, a.restaurantId).Some?
  }

  /** Every association key is below the key the database hands out next. */
  predicate IdsBelow(rps: seq<RestaurantPizza>, bound: int)
  {
    forall a :: a in rps ==> a.id < bound
  }

  predicate Valid(db: Db)
  {
    && UniqueRestaurantIds(db.restaurants)
    && UniquePizzaIds(db.pizzas)
    && UniqueAssocIds(db.restaurantPizzas)
    && UniquePairs(db.restaurantPizzas)
    && PricesInRange(db.restaurantPizzas)
    && ReferencesExist(db)
    && IdsBelow(db.restaurantPizzas, db.nextId)
  }

  // ---------------------------------------------------------------------
  // Lemmas about lookups and filters
  // ---------------------------------------------------------------------

  /** The detail list of a restaurant has one entry per association that references it. */
  lemma {:induction false} AssocsOfCount(rps: seq<RestaurantPizza>, restaurantId: int)
    ensures |AssocsOf(rps, restaurantId)| == CountFor(rps, restaurantId)
  {
    if rps != [] {
      AssocsOfCount(rps[1..], restaurantId);
    }
  }

  lemma {:induction false} CountForAppend(rps: seq<RestaurantPizza>, a: RestaurantPizza, restaurantId: int)
    ensures CountFor(rps + [a], restaurantId)
         == CountFor(rps, restaurantId) + (if a.restaurantId == restaurantId then 1 else 0)
  {
    if rps != [] {
      assert (rps + [a])[1..] == rps[1..] + [a];
      CountForAppend(rps[1..], a, restaurantId);
    }
  }

  lemma {:induction false} AssocsOfAppend(rps: seq<RestaurantPizza>, a: RestaurantPizza)
    ensures AssocsOf(rps + [a], a.restaurantId) == AssocsOf(rps, a.restaurantId) + [a]
  {
    if rps == [] {
      assert AssocsOf([a], a.restaurantId) == [a] + AssocsOf([], a.restaurantId);
    } else {
      assert (rps + [a])[1..] == rps[1..] + [a];
      AssocsOfAppend(rps[1..], a);
    }
  }

  lemma {:induction false} ExceptNoIds(rps: seq<RestaurantPizza>)
    ensures ExceptIds(rps, {}) == rps
  {
    if rps != [] {
      ExceptNoIds(rps[1..]);
    }
  }

  /** Deleting two batches of keys one after the other deletes their union. */
  lemma {:induction false} ExceptIdsTwice(rps: seq<RestaurantPizza>, ids: set<int>, more: set<int>)
    ensures ExceptIds(ExceptIds(rps, ids), more) == ExceptIds(rps, ids + more)
  {
    if rps != [] {
      ExceptIdsTwice(rps[1..], ids, more);
    }
  }

  /**
   * Deleting by key exactly the rows whose key belongs to a restaurant's
   * associations is the same as dropping every association of it.
   */
  lemma {:induction false} ExceptIdsMatchingWithout(rps: seq<RestaurantPizza>, ids: set<int>, restaurantId: int)
    requires forall a :: a in rps ==> (a.id in ids <==> a.restaurantId == restaurantId)
    ensures ExceptIds(rps, ids) == Without(rps, restaurantId)
  {
    if rps != [] {
      ExceptIdsMatchingWithout(rps[1..], ids, restaurantId);
    }
  }

  /** Deleting rows one by one deletes the rows with any of their keys. */
  lemma {:induction false} DeleteRowsExceptIds(rps: seq<RestaurantPizza>, rows: seq<RestaurantPizza>)
    ensures DeleteRows(rps, rows) == ExceptIds(rps, AssocIds(rows))
    decreases |rows|
  {
    if rows == [] {
      assert AssocIds(rows) == {};
      ExceptNoIds(rps);
    } else {
      DeleteRowsExceptIds(ExceptIds(rps, {rows[0].id}), rows[1..]);
      ExceptIdsTwice(rps, {rows[0].id}, AssocIds(rows[1..]));
      assert AssocIds(rows) == {rows[0].id} + AssocIds(rows[1..]) by {
        assert forall a :: a in rows <==> a == rows[0] || a in rows[1..];
      }
    }
  }

  /** With unique keys, deleting the keys of a restaurant's associations drops exactly those rows. */
  lemma ExceptOwnIds(rps: seq<RestaurantPizza>, restaurantId: int)
    requires UniqueAssocIds(rps)
    ensures ExceptIds(rps, AssocIds(AssocsOf(rps, restaurantId))) == Without(rps, restaurantId)
    ensures DeleteRows(rps, AssocsOf(rps, restaurantId)) == Without(rps, restaurantId)
  {
    DeleteRowsExceptIds(rps, AssocsOf(rps, restaurantId));
    var own := AssocsOf(rps, restaurantId);
    var ids := AssocIds(own);
    forall a | a in rps
      ensures a.id in ids <==> a.restaurantId == restaurantId
    {
      if a.id in ids {
        var b :| b in own && b.id == a.id;
        var i :| 0 <= i < |rps| && rps[i] == a;
        var j :| 0 <= j < |rps| && rps[j] == b;
        assert i == j;
      }
    }
    ExceptIdsMatchingWithout(rps, ids, restaurantId);
  }

  /** Keys and pairs stay unique when rows are dropped from the association table. */
  lemma {:induction false} WithoutKeepsUnique(rps: seq<RestaurantPizza>, restaurantId: int)
    requires UniqueAssocIds(rps) && UniquePairs(rps)
    ensures UniqueAssocIds(Without(rps, restaurantId)) && UniquePairs(Without(rps, restaurantId))
  {
    if rps != [] {
      var t := rps[1..];
      WithoutKeepsUnique(t, restaurantId);
      if rps[0].restaurantId != restaurantId {
        var w := Without(t, restaurantId);
        forall k | 0 <= k < |w|
          ensures w[k].id != rps[0].id
          ensures !(w[k].pizzaId == rps[0].pizzaId && w[k].restaurantId == rps[0].restaurantId)
        {
          assert w[k] in t;
          var m :| 0 <= m < |t| && t[m] == w[k];
          assert rps[m + 1] == w[k];
        }
        var r := [rps[0]] + w;
        assert forall k :: 1 <= k < |r| ==> r[k] == w[k - 1];
      }
    }
  }

  lemma {:induction false} RemoveRestaurantKeepsUnique(rs: seq<Restaurant>, id: int)
    requires UniqueRestaurantIds(rs)
    ensures UniqueRestaurantIds(RemoveRestaurant(rs, id))
  {
    if rs != [] {
      var t := rs[1..];
      RemoveRestaurantKeepsUnique(t, id);
      if rs[0].id != id {
        var w := RemoveRestaurant(t, id);
        forall k | 0 <= k < |w|
          ensures w[k].id != rs[0].id
        {
          assert w[k] in t;
          var m :| 0 <= m < |t| && t[m] == w[k];
          assert rs[m + 1] == w[k];
        }
        var r := [rs[0]] + w;
        assert forall k :: 1 <= k < |r| ==> r[k] == w[k - 1];
      }
    }
  }
}
