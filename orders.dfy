/**
 OrderController's decisions as functions over the order table: placing an
 order, cancelling it, confirming its receipt, and the two listings. The
 class in OrderStore performs the same steps in place.
 */
module OrderLifecycle {
  import opened Wrappers
  import opened Models
  import opened Query

  const MinQuantity: int := 1
  const MaxQuantity: int := 100

  /** The answer an order action gives its caller. */
  datatype Outcome = Ok | Invalid | NotFound | BadRequest | Forbidden

  /** The Orders table and the next value of its identity column. */
  datatype Table = Table(orders: seq<Order>, nextId: int)

  /** One action's answer and the table after it. */
  datatype Step = Step(outcome: Outcome, table: Table)

  /** Products.FindAsync(id): the catalogue product with that key. */
  function FindProduct(catalog: seq<Product>, id: int): (r: Option<Product>)
    ensures r.Some? ==> r.value in catalog && r.value.id == id
    ensures r.None? <==> forall k :: 0 <= k < |catalog| ==> catalog[k].id != id
  {
    match FirstIndex(catalog, (p: Product) => p.id == id)
    case None => None
    case Some(k) => Some(catalog[k])
  }

  /** Orders.FindAsync(id): the position of the order with that key. */
  function FindOrder(orders: seq<Order>, id: int): (r: Option<nat>)
    ensures r.Some? ==> r.value < |orders| && orders[r.value].id == id
    ensures r.None? <==> forall k :: 0 <= k < |orders| ==> orders[k].id != id
  {
    FirstIndex(orders, (o: Order) => o.id == id)
  }

  /** The first order with this key that belongs to `userId`. */
  function FindOwnOrder(orders: seq<Order>, id: int, userId: Option<string>): (r: Option<nat>)
    ensures r.Some? ==> r.value < |orders| && orders[r.value].id == id && orders[r.value].userId == userId
    ensures r.None? <==> forall k :: 0 <= k < |orders| ==> !(orders[k].id == id && orders[k].userId == userId)
  {
    FirstIndex(orders, (o: Order) => o.id == id && o.userId == userId)
  }

  /** The fields fixed when an order is placed, which no later action touches. */
  predicate SameTerms(a: Order, b: Order) {
    && a.id == b.id
    && a.productId == b.productId
    && a.userId == b.userId
    && a.quantity == b.quantity
    && a.totalPrice == b.totalPrice
    && a.orderDate == b.orderDate
  }

  /** Every stored order has a quantity in range and is active exactly when not cancelled. */
  predicate WellFormed(o: Order) {
    && MinQuantity <= o.quantity <= MaxQuantity
    && (o.isActive <==> o.status != Cancelled)
  }

  /** The table's invariant: distinct keys below the next identity value, well-formed rows. */
  predicate TableInvariant(t: Table) {
    && 1 <= t.nextId
    && (forall i, j :: 0 <= i < j < |t.orders| ==> t.orders[i].id != t.orders[j].id)
    && (forall i :: 0 <= i < |t.orders| ==> 1 <= t.orders[i].id < t.nextId && WellFormed(t.orders[i]))
  }

  /**
   PlaceOrder: reject a quantity outside 1..100, then a product id the
   catalogue lacks; otherwise append a Pending, active order whose total is
   the product's current price times the quantity.
   */
  function Place(t: Table, catalog: seq<Product>, actor: Actor, productId: int, quantity: int, now: Timestamp): (r: Step)
    ensures r.outcome == Invalid <==> !(MinQuantity <= quantity <= MaxQuantity)
    ensures r.outcome == NotFound <==>
      MinQuantity <= quantity <= MaxQuantity && forall k :: 0 <= k < |catalog| ==> catalog[k].id != productId
    ensures r.outcome == Invalid || r.outcome == NotFound || r.outcome == Ok
    ensures r.outcome != Ok ==> r.table == t
    ensures r.outcome == Ok ==>
      && |r.table.orders| == |t.orders| + 1
      && r.table.orders[..|t.orders|] == t.orders
      && r.table.nextId == t.nextId + 1
      && var o := r.table.orders[|t.orders|];
         && o.id == t.nextId
         && o.productId == productId
         && o.userId == actor.userId
         && o.quantity == quantity
         && o.totalPrice == FindProduct(catalog, productId).value.price * quantity
         && o.orderDate == now
         && o.status == Pending
         && o.isActive
  {
    if quantity <= 0 || quantity > 100 then Step(Invalid, t)
    else
      match FindProduct(catalog, productId)
      case None => Step(NotFound, t)
      case Some(product) =>
        var order := Order(
          t.nextId, productId, actor.userId, quantity,
          product.price * quantity, now, Pending, true);
        Step(Ok, Table(t.orders + [order], t.nextId + 1))
  }

  /**
   CancelOrder (admin only): an unknown key is "not found"; otherwise the
   order becomes Cancelled and inactive whatever its status was.
   */
  function Cancel(t: Table, actor: Actor, id: int): (r: Step)
    ensures !actor.isAdmin ==> r == Step(Forbidden, t)
    ensures actor.isAdmin ==>
      (r.outcome == NotFound <==> forall k :: 0 <= k < |t.orders| ==> t.orders[k].id != id)
    ensures actor.isAdmin && (exists k :: 0 <= k < |t.orders| && t.orders[k].id == id) ==> r.outcome == Ok
    ensures r.outcome == Ok || r.outcome == NotFound || r.outcome == Forbidden
    ensures r.outcome != Ok ==> r.table == t
    ensures r.table.nextId == t.nextId && |r.table.orders| == |t.orders|
    ensures forall k :: 0 <= k < |t.orders| ==> SameTerms(r.table.orders[k], t.orders[k])
    ensures r.outcome == Ok ==>
      var k := FindOrder(t.orders, id).value;
      && r.table.orders[k].status == Cancelled
      && !r.table.orders[k].isActive
      && forall j :: 0 <= j < |t.orders| && j != k ==> r.table.orders[j] == t.orders[j]
  {
    if !actor.isAdmin then Step(Forbidden, t)
    else
      match FindOrder(t.orders, id)
      case None => Step(NotFound, t)
      case Some(k) =>
        var order := t.orders[k].(status := Cancelled, isActive := false);
        Step(Ok, t.(orders := t.orders[k := order]))
  }

  /**
   ConfirmReceived: only the caller's own order is found; it must be Pending,
   and becomes Received with its active flag untouched.
   */
  function Confirm(t: Table, actor: Actor, id: int): (r: Step)
    ensures r.outcome == NotFound <==>
      forall k :: 0 <= k < |t.orders| ==> !(t.orders[k].id == id && t.orders[k].userId == actor.userId)
    ensures r.outcome == BadRequest <==>
      FindOwnOrder(t.orders, id, actor.userId).Some? &&
      t.orders[FindOwnOrder(t.orders, id, actor.userId).value].status != Pending
    ensures r.outcome == Ok || r.outcome == NotFound || r.outcome == BadRequest
    ensures r.outcome != Ok ==> r.table == t
    ensures r.table.nextId == t.nextId && |r.table.orders| == |t.orders|
    ensures forall k :: 0 <= k < |t.orders| ==>
      SameTerms(r.table.orders[k], t.orders[k]) && r.table.orders[k].isActive == t.orders[k].isActive
    ensures r.outcome == Ok ==>
      var k := FindOwnOrder(t.orders, id, actor.userId).value;
      && t.orders[k].status == Pending
      && r.table.orders[k].status == Received
      && forall j :: 0 <= j < |t.orders| && j != k ==> r.table.orders[j] == t.orders[j]
  {
    match FindOwnOrder(t.orders, id, actor.userId)
    case None => Step(NotFound, t)
    case Some(k) =>
      if t.orders[k].status != Pending then Step(BadRequest, t)
      else
        var order := t.orders[k].(status := Received);
        Step(Ok, t.(orders := t.orders[k := order]))
  }

  lemma PlacePreservesInvariant(t: Table, catalog: seq<Product>, actor: Actor, productId: int, quantity: int, now: Timestamp)
    requires TableInvariant(t)
    ensures TableInvariant(Place(t, catalog, actor, productId, quantity, now).table)
  {
  }

  lemma CancelPreservesInvariant(t: Table, actor: Actor, id: int)
    requires TableInvariant(t)
    ensures TableInvariant(Cancel(t, actor, id).table)
  {
  }

  lemma ConfirmPreservesInvariant(t: Table, actor: Actor, id: int)
    requires TableInvariant(t)
    ensures TableInvariant(Confirm(t, actor, id).table)
  {
  }

  /** One request to the controller. */
  datatype Request =
    | PlaceRequest(catalog: seq<Product>, actor: Actor, productId: int, quantity: int, now: Timestamp)
    | CancelRequest(actor: Actor, id: int)
    | ConfirmRequest(actor: Actor, id: int)

  function Handle(t: Table, req: Request): Step {
    match req
    case PlaceRequest(catalog, actor, productId, quantity, now) => Place(t, catalog, actor, productId, quantity, now)
    case CancelRequest(actor, id) => Cancel(t, actor, id)
    case ConfirmRequest(actor, id) => Confirm(t, actor, id)
  }

  /** The table after handling `reqs` in order. */
  function Run(t: Table, reqs: seq<Request>): Table
    decreases |reqs|
  {
    if reqs == [] then t else Run(Handle(t, reqs[0]).table, reqs[1..])
  }

  /** How one order's status may move: Cancelled is final, Received only moves to Cancelled. */
  predicate MayBecome(s: Status, s': Status) {
    s' == s || s' == Cancelled || (s == Pending && s' == Received)
  }

  /**
   Over any run of requests the invariant holds, no order leaves the table,
   every existing order keeps the terms it was placed with (so a product's
   later price, in the catalogue any later request sees, never reaches an
   existing total), and its status moves only as MayBecome allows.
   */
  lemma {:induction false} RunKeepsTerms(t: Table, reqs: seq<Request>)
    requires TableInvariant(t)
    ensures TableInvariant(Run(t, reqs))
    ensures |Run(t, reqs).orders| >= |t.orders|
    ensures forall k :: 0 <= k < |t.orders| ==> SameTerms(Run(t, reqs).orders[k], t.orders[k])
    ensures forall k :: 0 <= k < |t.orders| ==> MayBecome(t.orders[k].status, Run(t, reqs).orders[k].status)
    decreases |reqs|
  {
    if reqs != [] {
      var step := Handle(t, reqs[0]);
      match reqs[0] {
        case PlaceRequest(catalog, actor, productId, quantity, now) =>
          PlacePreservesInvariant(t, catalog, actor, productId, quantity, now);
          if step.outcome == Ok {
            assert forall k :: 0 <= k < |t.orders| ==> step.table.orders[k] == t.orders[k];
          }
        case CancelRequest(actor, id) =>
          CancelPreservesInvariant(t, actor, id);
        case ConfirmRequest(actor, id) =>
          ConfirmPreservesInvariant(t, actor, id);
      }
      RunKeepsTerms(step.table, reqs[1..]);
    }
  }

  /** With distinct keys, the own-order lookup finds the keyed order exactly when it is the caller's. */
  lemma FindOwnOrderIsKeyed(orders: seq<Order>, id: int, userId: Option<string>)
    requires forall i, j :: 0 <= i < j < |orders| ==> orders[i].id != orders[j].id
    ensures FindOwnOrder(orders, id, userId).Some? <==>
      FindOrder(orders, id).Some? && orders[FindOrder(orders, id).value].userId == userId
    ensures FindOwnOrder(orders, id, userId).Some? ==> FindOwnOrder(orders, id, userId) == FindOrder(orders, id)
  {
  }

  /** A cancelled order can never be confirmed as received, by anyone. */
  lemma CancelledIsFinal(t: Table, admin: Actor, anyone: Actor, id: int)
    requires TableInvariant(t)
    requires Cancel(t, admin, id).outcome == Ok
    ensures Confirm(Cancel(t, admin, id).table, anyone, id).outcome != Ok
  {
  }

  /** Receipt is confirmed at most once: a second confirmation is rejected. */
  lemma ConfirmOnce(t: Table, actor: Actor, id: int)
    requires Confirm(t, actor, id).outcome == Ok
    ensures Confirm(Confirm(t, actor, id).table, actor, id) == Step(BadRequest, Confirm(t, actor, id).table)
  {
  }

  /** Cancelling twice leaves the table as cancelling once did. */
  lemma CancelIdempotent(t: Table, actor: Actor, id: int)
    ensures Cancel(Cancel(t, actor, id).table, actor, id).table == Cancel(t, actor, id).table
  {
  }

  /** OrderByDescending(o => o.OrderDate), as a comparison for SortBy. */
  predicate NewestFirst(a: Order, b: Order) { a.orderDate >= b.orderDate }

  lemma NewestFirstIsPreorder()
    ensures TotalPreorder(NewestFirst)
  {
  }

  function ActiveOrders(orders: seq<Order>): seq<Order> {
    Filter(orders, (o: Order) => o.isActive)
  }

  function OwnOrders(orders: seq<Order>, userId: Option<string>): seq<Order> {
    Filter(orders, (o: Order) => o.userId == userId)
  }

  /** Index (admin only): the active orders, newest first. */
  function AdminIndex(t: Table, actor: Actor): (r: Option<seq<Order>>)
    ensures r.Some? <==> actor.isAdmin
    ensures r.Some? ==> forall o :: multiset(r.value)[o] == if o.isActive then multiset(t.orders)[o] else 0
  {
    if !actor.isAdmin then None else Some(SortBy(ActiveOrders(t.orders), NewestFirst))
  }

  /** MyOrders: the caller's orders, active or not, newest first. */
  function MyOrders(t: Table, actor: Actor): (r: seq<Order>)
    ensures forall o :: multiset(r)[o] == if o.userId == actor.userId then multiset(t.orders)[o] else 0
  {
    SortBy(OwnOrders(t.orders, actor.userId), NewestFirst)
  }

  /** A sorted copy holds exactly the elements of what it sorts. */
  lemma SortedHasSameMembers(s: seq<Order>)
    ensures forall o :: o in SortBy(s, NewestFirst) <==> o in s
  {
    var r := SortBy(s, NewestFirst);
    forall o ensures o in r <==> o in s {
      assert o in r <==> o in multiset(r);
      assert o in s <==> o in multiset(s);
    }
  }

  /**
   The admin listing is refused to non-admins; for an admin it lists every
   active order once, and nothing else, newest first. Under the table
   invariant the active orders are exactly those not cancelled.
   */
  lemma AdminIndexListsActive(t: Table, actor: Actor)
    ensures !actor.isAdmin ==> AdminIndex(t, actor).None?
    ensures actor.isAdmin ==>
      && AdminIndex(t, actor).Some?
      && multiset(AdminIndex(t, actor).value) == multiset(ActiveOrders(t.orders))
      && (forall o :: o in AdminIndex(t, actor).value <==> o in t.orders && o.isActive)
      && Sorted(AdminIndex(t, actor).value, NewestFirst)
    ensures actor.isAdmin && TableInvariant(t) ==>
      forall o :: o in AdminIndex(t, actor).value <==> o in t.orders && o.status != Cancelled
  {
    if actor.isAdmin {
      NewestFirstIsPreorder();
      SortBySorted(ActiveOrders(t.orders), NewestFirst);
      SortedHasSameMembers(ActiveOrders(t.orders));
    }
  }

  /** MyOrders lists every order of the caller once, whatever its status, newest first. */
  lemma MyOrdersListsOwn(t: Table, actor: Actor)
    ensures multiset(MyOrders(t, actor)) == multiset(OwnOrders(t.orders, actor.userId))
    ensures forall o :: o in MyOrders(t, actor) <==> o in t.orders && o.userId == actor.userId
    ensures Sorted(MyOrders(t, actor), NewestFirst)
  {
    NewestFirstIsPreorder();
    SortBySorted(OwnOrders(t.orders, actor.userId), NewestFirst);
    SortedHasSameMembers(OwnOrders(t.orders, actor.userId));
  }

  /** A product at 10.00 ordered twice gives a Pending order totalling 20.00. */
  lemma PlaceOrderExample(product: Product)
    requires product.price == 1000
    ensures var t := Place(Table([], 1), [product], Actor(Some("testuser123"), false), product.id, 2, 0).table;
            && |t.orders| == 1
            && t.orders[0].userId == Some("testuser123")
            && t.orders[0].quantity == 2
            && t.orders[0].totalPrice == 2000
            && t.orders[0].status == Pending
  {
  }
}
