/**
 The order table as OrderController changes it: PlaceOrder appends a row,
 CancelOrder and ConfirmReceived find a row and overwrite its status and
 active flag. Each method answers and leaves the table exactly as the
 matching function of OrderLifecycle says.
 */
module OrderStore {
  import opened Models
  import opened OrderLifecycle

  class OrderController {
    var orders: seq<Order>
    /** The value the identity column gives the next inserted order. */
    var nextId: int

    ghost predicate Valid()
      reads this
    {
      TableInvariant(Table(orders, nextId))
    }

    function State(): Table
      reads this
    {
      Table(orders, nextId)
    }

    /** An empty Orders table whose identity column starts at 1. */
    constructor ()
      ensures Valid()
      ensures orders == [] && nextId == 1
    {
      orders := [];
      nextId := 1;
    }

    method PlaceOrder(catalog: seq<Product>, actor: Actor, productId: int, quantity: int, now: Timestamp)
      returns (r: Outcome)
      requires Valid()
      modifies this
      ensures Valid()
      ensures Step(r, State()) == Place(old(State()), catalog, actor, productId, quantity, now)
    {
      PlacePreservesInvariant(State(), catalog, actor, productId, quantity, now);
      if quantity <= 0 || quantity > 100 {
        return Invalid;
      }
      var product := FindProduct(catalog, productId);
      if product.None? {
        return NotFound;
      }
      var order := Order(
        nextId, productId, actor.userId, quantity,
        product.value.price * quantity, now, Pending, true);
      orders := orders + [order];
      nextId := nextId + 1;
      r := Ok;
    }

    method CancelOrder(actor: Actor, id: int) returns (r: Outcome)
      requires Valid()
      modifies this
      ensures Valid()
      ensures Step(r, State()) == Cancel(old(State()), actor, id)
    {
      CancelPreservesInvariant(State(), actor, id);
      if !actor.isAdmin {
        return Forbidden;
      }
      var k := FindOrder(orders, id);
      if k.None? {
        return NotFound;
      }
      orders := orders[k.value := orders[k.value].(status := Cancelled, isActive := false)];
      r := Ok;
    }

    method ConfirmReceived(actor: Actor, id: int) returns (r: Outcome)
      requires Valid()
      modifies this
      ensures Valid()
      ensures Step(r, State()) == Confirm(old(State()), actor, id)
    {
      ConfirmPreservesInvariant(State(), actor, id);
      var k := FindOwnOrder(orders, id, actor.userId);
      if k.None? {
        return NotFound;
      }
      if orders[k.value].status != Pending {
        return BadRequest;
      }
      orders := orders[k.value := orders[k.value].(status := Received)];
      r := Ok;
    }

  }
}
