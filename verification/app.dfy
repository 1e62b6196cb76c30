/** The store and its handlers (src/App.tsx). The three `useState`
    collections become one immutable `Store`; each handler is one atomic
    transition from the store before the event to the store after it.
    New ids (`Date.now().toString()`) and the clock (`new Date()`) are
    parameters. */
module App {
  import opened Types
  import opened Collection

  datatype Store = Store(pizzas: seq<Pizza>, couriers: seq<Courier>, orders: seq<Order>)

  /* ---------------------------------------------------------------- lookups */

  predicate PizzaIdIs(id: Id, p: Pizza) { p.id == id }
  predicate CourierIdIs(id: Id, c: Courier) { c.id == id }
  predicate OrderIdIs(id: Id, o: Order) { o.id == id }

  predicate HasPizza(s: Store, id: Id) { exists i :: 0 <= i < |s.pizzas| && s.pizzas[i].id == id }
  predicate HasCourier(s: Store, id: Id) { exists i :: 0 <= i < |s.couriers| && s.couriers[i].id == id }
  predicate HasOrder(s: Store, id: Id) { exists i :: 0 <= i < |s.orders| && s.orders[i].id == id }

  /** Index `k` holds the last order with the id that names a courier. */
  predicate LastHolderAt(os: seq<Order>, id: Id, k: int)
  {
    0 <= k < |os| && os[k].id == id && Truthy(os[k].courierId) &&
    forall j :: k < j < |os| ==> !(os[j].id == id && Truthy(os[j].courierId))
  }

  /** `pizzas.find(p => p.id === id)`. */
  function FindPizza(ps: seq<Pizza>, id: Id): Option<Pizza>
  {
    Find(ps, p => PizzaIdIs(id, p))
  }

  /** `couriers.find(c => c.id === id)`. */
  function FindCourier(cs: seq<Courier>, id: Id): Option<Courier>
  {
    Find(cs, c => CourierIdIs(id, c))
  }

  /** `orders.find(o => o.id === id)`. */
  function FindOrder(os: seq<Order>, id: Id): Option<Order>
  {
    Find(os, o => OrderIdIs(id, o))
  }

  /** `FindOrder` returns the order at the first index with the id. */
  lemma FindOrderIsFirst(os: seq<Order>, id: Id)
    ensures FindOrder(os, id).None? <==> forall i :: 0 <= i < |os| ==> os[i].id != id
    ensures forall k :: FirstKeyAt(os, OrderKey, id, k) ==> FindOrder(os, id) == Some(os[k])
  {
    var r := FindOrder(os, id);
    forall k | FirstKeyAt(os, OrderKey, id, k) ensures r == Some(os[k])
    {
      var k' :| 0 <= k' < |os| && os[k'] == r.value && OrderIdIs(id, os[k']) &&
                forall j :: 0 <= j < k' ==> !OrderIdIs(id, os[j]);
      assert !(k < k') && !(k' < k);
    }
  }

  /** `FindCourier` returns the courier at the first index with the id. */
  lemma FindCourierIsFirst(cs: seq<Courier>, id: Id)
    ensures FindCourier(cs, id).None? <==> forall i :: 0 <= i < |cs| ==> cs[i].id != id
    ensures forall m :: FirstKeyAt(cs, CourierKey, id, m) ==> FindCourier(cs, id) == Some(cs[m])
  {
    var r := FindCourier(cs, id);
    forall m | FirstKeyAt(cs, CourierKey, id, m) ensures r == Some(cs[m])
    {
      var m' :| 0 <= m' < |cs| && cs[m'] == r.value && CourierIdIs(id, cs[m']) &&
                forall j :: 0 <= j < m' ==> !CourierIdIs(id, cs[j]);
      assert !(m < m') && !(m' < m);
    }
  }

  /* ----------------------------------------------------------------- pizzas */

  /** handleAddPizza: the draft plus a new id, appended at the end. */
  function AddPizza(s: Store, draft: PizzaDraft, newId: Id): (r: Store)
    ensures |r.pizzas| == |s.pizzas| + 1
    ensures r.pizzas[..|s.pizzas|] == s.pizzas
    ensures r.pizzas[|s.pizzas|] ==
      Pizza(newId, draft.name, draft.description, draft.price, draft.image, draft.available)
    ensures r.couriers == s.couriers && r.orders == s.orders
  {
    s.(pizzas := s.pizzas + [Pizza(newId, draft.name, draft.description, draft.price, draft.image, draft.available)])
  }

  /** handleUpdatePizza: every pizza with the id gets the patch merged in;
      the others, and their order, are untouched. */
  function UpdatePizza(s: Store, id: Id, u: PizzaPatch): (r: Store)
    ensures |r.pizzas| == |s.pizzas|
    ensures forall i :: 0 <= i < |s.pizzas| && s.pizzas[i].id != id ==> r.pizzas[i] == s.pizzas[i]
    ensures forall i :: 0 <= i < |s.pizzas| && s.pizzas[i].id == id ==>
              r.pizzas[i] == MergePizza(s.pizzas[i], u)
    ensures !HasPizza(s, id) ==> r == s
    ensures r.couriers == s.couriers && r.orders == s.orders
  {
    s.(pizzas := UpdateWhere(s.pizzas, p => PizzaIdIs(id, p), p => MergePizza(p, u)))
  }

  /** handleDeletePizza: drops every pizza with the id. Orders keep their
      snapshots, so nothing else changes. */
  function DeletePizza(s: Store, id: Id): (r: Store)
    ensures !HasPizza(r, id)
    ensures forall i :: 0 <= i < |s.pizzas| && s.pizzas[i].id != id ==> s.pizzas[i] in r.pizzas
    ensures forall i :: 0 <= i < |r.pizzas| ==> r.pizzas[i] in s.pizzas
    ensures !HasPizza(s, id) ==> r == s
    ensures r.couriers == s.couriers && r.orders == s.orders
  {
    s.(pizzas := Filter(s.pizzas, p => !PizzaIdIs(id, p)))
  }

  /** With distinct ids, deleting the pizza at `k` removes exactly that
      index and keeps the other pizzas in order. */
  lemma DeletePizzaRemovesExactlyOne(s: Store, k: nat)
    requires k < |s.pizzas|
    requires forall i :: 0 <= i < |s.pizzas| && s.pizzas[i].id == s.pizzas[k].id ==> i == k
    ensures DeletePizza(s, s.pizzas[k].id).pizzas == s.pizzas[..k] + s.pizzas[k + 1..]
  {
    var id := s.pizzas[k].id;
    FilterRemovesOne(s.pizzas, p => !PizzaIdIs(id, p), k);
  }

  /* --------------------------------------------------------------- couriers */

  /** handleAddCourier. */
  function AddCourier(s: Store, draft: CourierDraft, newId: Id): (r: Store)
    ensures |r.couriers| == |s.couriers| + 1
    ensures r.couriers[..|s.couriers|] == s.couriers
    ensures r.couriers[|s.couriers|] ==
      Courier(newId, draft.name, draft.phone, draft.status, draft.currentOrderId)
    ensures r.pizzas == s.pizzas && r.orders == s.orders
  {
    s.(couriers := s.couriers + [Courier(newId, draft.name, draft.phone, draft.status, draft.currentOrderId)])
  }

  /** handleUpdateCourier: merge into every courier with the id. */
  function UpdateCourier(s: Store, id: Id, u: CourierPatch): (r: Store)
    ensures |r.couriers| == |s.couriers|
    ensures forall i :: 0 <= i < |s.couriers| && s.couriers[i].id != id ==> r.couriers[i] == s.couriers[i]
    ensures forall i :: 0 <= i < |s.couriers| && s.couriers[i].id == id ==>
              r.couriers[i] == MergeCourier(s.couriers[i], u)
    ensures !HasCourier(s, id) ==> r == s
    ensures r.pizzas == s.pizzas && r.orders == s.orders
  {
    s.(couriers := UpdateWhere(s.couriers, c => CourierIdIs(id, c), c => MergeCourier(c, u)))
  }

  const ActiveOrderAlert := "Нельзя удалить курьера с активным заказом"

  /** handleDeleteCourier: refused while the (first) courier with the id
      holds a truthy `currentOrderId`; otherwise every courier with the id
      is removed. */
  function DeleteCourier(s: Store, id: Id): (r: Result<Store>)
    ensures r.Refused? <==> (exists i :: 0 <= i < |s.couriers| && s.couriers[i].id == id &&
                               Truthy(s.couriers[i].currentOrderId) &&
                               forall j :: 0 <= j < i ==> s.couriers[j].id != id)
    ensures r.Refused? ==> r.message == ActiveOrderAlert
    ensures r.Ok? ==> !HasCourier(r.value, id) &&
                      r.value.pizzas == s.pizzas && r.value.orders == s.orders &&
                      (forall i :: 0 <= i < |s.couriers| && s.couriers[i].id != id ==>
                         s.couriers[i] in r.value.couriers) &&
                      (forall i :: 0 <= i < |r.value.couriers| ==> r.value.couriers[i] in s.couriers)
    ensures !HasCourier(s, id) ==> r == Ok(s)
  {
    var c := FindCourier(s.couriers, id);
    if c.Some? && Truthy(c.value.currentOrderId) then Refused(ActiveOrderAlert)
    else Ok(s.(couriers := Filter(s.couriers, c => !CourierIdIs(id, c))))
  }

  /* ----------------------------------------------------------------- orders */

  /** handleAddOrder: the draft plus a new id, created and updated now. */
  function AddOrder(s: Store, draft: OrderDraft, newId: Id, now: Time): (r: Store)
    ensures |r.orders| == |s.orders| + 1
    ensures r.orders[..|s.orders|] == s.orders
    ensures var o := r.orders[|s.orders|];
              o.id == newId && o.createdAt == now && o.updatedAt == now &&
              o.items == draft.items && o.total == draft.total && o.status == draft.status &&
              o.courierId == draft.courierId && o.courierName == draft.courierName &&
              o.customerName == draft.customerName && o.customerPhone == draft.customerPhone &&
              o.customerAddress == draft.customerAddress
    ensures r.pizzas == s.pizzas && r.couriers == s.couriers
  {
    s.(orders := s.orders + [Order(newId, draft.customerName, draft.customerPhone, draft.customerAddress,
                                   draft.items, draft.total, draft.status, draft.courierId,
                                   draft.courierName, now, now)])
  }

  /** A courier set free: `{ ...c, status: 'free', currentOrderId: undefined }`. */
  function Release(c: Courier): (r: Courier)
    ensures r.status == Free && r.currentOrderId.None?
    ensures r.id == c.id && r.name == c.name && r.phone == c.phone
  {
    c.(status := Free, currentOrderId := None)
  }

  /** A courier bound to an order: `{ ...c, status: 'busy', currentOrderId }`. */
  function Bind(c: Courier, orderId: Id): (r: Courier)
    ensures r.status == Busy && r.currentOrderId == Some(orderId)
    ensures r.id == c.id && r.name == c.name && r.phone == c.phone
  {
    c.(status := Busy, currentOrderId := Some(orderId))
  }

  /** Release every courier whose id is `cid`; no-op for a falsy reference. */
  function ReleaseCourier(cs: seq<Courier>, cid: Option<Id>): (r: seq<Courier>)
    ensures |r| == |cs|
    ensures forall i :: 0 <= i < |cs| ==>
              r[i] == if Truthy(cid) && cs[i].id == cid.value then Release(cs[i]) else cs[i]
  {
    if Truthy(cid) then UpdateWhere(cs, c => CourierIdIs(cid.value, c), Release) else cs
  }

  /** An order after a partial update at time `now`. */
  function Updated(o: Order, u: OrderPatch, now: Time): Order
  {
    MergeOrder(o, u).(updatedAt := now)
  }

  /** The order whose courier handleUpdateOrder releases. `setCouriers` is
      called inside `orders.map`, once per matching order with a truthy
      `courierId`, each time from the same snapshot, so the last call wins. */
  function LastCourierHolder(os: seq<Order>, id: Id): (r: Option<Order>)
    ensures r.None? <==> forall i :: 0 <= i < |os| ==> !(os[i].id == id && Truthy(os[i].courierId))
    ensures r.Some? ==> r.value in os && r.value.id == id && Truthy(r.value.courierId)
  {
    FindLast(os, o => OrderIdIs(id, o) && Truthy(o.courierId))
  }

  /** `LastCourierHolder` returns the order at the last holding index. */
  lemma LastCourierHolderIsLast(os: seq<Order>, id: Id)
    ensures LastCourierHolder(os, id).None? <==> forall k :: !LastHolderAt(os, id, k)
    ensures forall k :: LastHolderAt(os, id, k) ==> LastCourierHolder(os, id) == Some(os[k])
  {
    var r := LastCourierHolder(os, id);
    if r.Some? {
      var k' :| 0 <= k' < |os| && os[k'] == r.value && OrderIdIs(id, os[k']) && Truthy(os[k'].courierId) &&
                forall j :: k' < j < |os| ==> !(OrderIdIs(id, os[j]) && Truthy(os[j].courierId));
      assert LastHolderAt(os, id, k');
      forall k | LastHolderAt(os, id, k) ensures r == Some(os[k])
      {
        assert !(k < k') && !(k' < k);
      }
    } else {
      forall k ensures !LastHolderAt(os, id, k)
      {
        if 0 <= k < |os| { assert !(OrderIdIs(id, os[k]) && Truthy(os[k].courierId)); }
      }
    }
  }

  /** handleUpdateOrder: the matching order is merged and stamped `now`;
      a patch whose status is completed or cancelled releases the courier
      the order named before the update. */
  function UpdateOrder(s: Store, id: Id, u: OrderPatch, now: Time): (r: Store)
    ensures |r.orders| == |s.orders| && r.pizzas == s.pizzas
    ensures forall i :: 0 <= i < |s.orders| && s.orders[i].id != id ==> r.orders[i] == s.orders[i]
    ensures forall i :: 0 <= i < |s.orders| && s.orders[i].id == id ==>
              r.orders[i] == MergeOrder(s.orders[i], u).(updatedAt := now)
    ensures !(u.status.Some? && IsClosed(u.status.value)) ==> r.couriers == s.couriers
    ensures (forall k :: !LastHolderAt(s.orders, id, k)) ==> r.couriers == s.couriers
    ensures forall k :: u.status.Some? && IsClosed(u.status.value) && LastHolderAt(s.orders, id, k) ==>
              r.couriers == ReleaseCourier(s.couriers, s.orders[k].courierId)
    ensures !HasOrder(s, id) ==> r.couriers == s.couriers && r.orders == s.orders
  {
    var orders' := UpdateWhere(s.orders, o => OrderIdIs(id, o), o => Updated(o, u, now));
    var holder := LastCourierHolder(s.orders, id);
    LastCourierHolderIsLast(s.orders, id);
    if u.status.Some? && IsClosed(u.status.value) && holder.Some? then
      Store(s.pizzas, ReleaseCourier(s.couriers, holder.value.courierId), orders')
    else
      Store(s.pizzas, s.couriers, orders')
  }

  /** handleDeleteOrder: release the courier the (first) matching order
      names, then drop every order with the id. */
  function DeleteOrder(s: Store, id: Id): (r: Store)
    ensures !HasOrder(r, id) && r.pizzas == s.pizzas
    ensures forall i :: 0 <= i < |s.orders| && s.orders[i].id != id ==> s.orders[i] in r.orders
    ensures forall i :: 0 <= i < |r.orders| ==> r.orders[i] in s.orders
    ensures !HasOrder(s, id) ==> r == s
    ensures forall k :: FirstKeyAt(s.orders, OrderKey, id, k) ==>
              r.couriers == ReleaseCourier(s.couriers, s.orders[k].courierId)
  {
    var o := FindOrder(s.orders, id);
    FindOrderIsFirst(s.orders, id);
    var couriers' := if o.Some? then ReleaseCourier(s.couriers, o.value.courierId) else s.couriers;
    Store(s.pizzas, couriers', Filter(s.orders, o => !OrderIdIs(id, o)))
  }

  /** With distinct ids, deleting the order at `k` removes exactly that
      index and keeps the other orders in order. */
  lemma DeleteOrderRemovesExactlyOne(s: Store, k: nat)
    requires k < |s.orders|
    requires forall i :: 0 <= i < |s.orders| && s.orders[i].id == s.orders[k].id ==> i == k
    ensures DeleteOrder(s, s.orders[k].id).orders == s.orders[..k] + s.orders[k + 1..]
  {
    var id := s.orders[k].id;
    FilterRemovesOne(s.orders, o => !OrderIdIs(id, o), k);
  }

  /** The order after a courier is put on it. */
  function Assigned(o: Order, courier: Courier, courierId: Id, now: Time): Order
  {
    o.(courierId := Some(courierId), courierName := Some(courier.name), status := Delivering, updatedAt := now)
  }

  /** Bind every courier whose id is `cid` to `orderId`. */
  function BindCourier(cs: seq<Courier>, cid: Id, orderId: Id): (r: seq<Courier>)
    ensures |r| == |cs|
    ensures forall i :: 0 <= i < |cs| ==> r[i] == if cs[i].id == cid then Bind(cs[i], orderId) else cs[i]
  {
    UpdateWhere(cs, c => CourierIdIs(cid, c), c => Bind(c, orderId))
  }

  /** handleAssignCourier as its comment describes it: a no-op unless both
      the order and the courier exist; otherwise the order's previous
      courier is released, then the new one is bound, and every order with
      the id is put on the new courier with status delivering. */
  function AssignCourier(s: Store, orderId: Id, courierId: Id, now: Time): (r: Store)
    ensures r.pizzas == s.pizzas
    ensures !HasOrder(s, orderId) || !HasCourier(s, courierId) ==> r == s
  {
    var order := FindOrder(s.orders, orderId);
    var courier := FindCourier(s.couriers, courierId);
    FindOrderIsFirst(s.orders, orderId);
    FindCourierIsFirst(s.couriers, courierId);
    if order.None? || courier.None? then s
    else
      var released := ReleaseCourier(s.couriers, order.value.courierId);
      Store(s.pizzas,
            BindCourier(released, courierId, orderId),
            UpdateWhere(s.orders, o => OrderIdIs(orderId, o), o => Assigned(o, courier.value, courierId, now)))
  }

  /** When the first order with the id sits at `k` and the first courier
      with the id at `m`: every order with the id is put on that courier
      with status delivering, the courier is bound to the order, the
      courier the order named before is released, and nothing else
      changes. */
  lemma AssignCourierAt(s: Store, orderId: Id, courierId: Id, now: Time, k: int, m: int)
    requires FirstKeyAt(s.orders, OrderKey, orderId, k) && FirstKeyAt(s.couriers, CourierKey, courierId, m)
    ensures var r := AssignCourier(s, orderId, courierId, now);
            && |r.orders| == |s.orders| && |r.couriers| == |s.couriers|
            && (forall i :: 0 <= i < |s.orders| ==>
                  r.orders[i] == if s.orders[i].id == orderId
                                 then s.orders[i].(courierId := Some(courierId), courierName := Some(s.couriers[m].name),
                                                   status := Delivering, updatedAt := now)
                                 else s.orders[i])
            && (forall i :: 0 <= i < |s.couriers| ==>
                  r.couriers[i] == if s.couriers[i].id == courierId then Bind(s.couriers[i], orderId)
                                   else if Truthy(s.orders[k].courierId) && s.couriers[i].id == s.orders[k].courierId.value
                                   then Release(s.couriers[i])
                                   else s.couriers[i])
  {
    AssignCourierFound(s, orderId, courierId, now, k, m);
  }

  /** Both lookups succeed, so the handler takes its main branch. */
  lemma AssignCourierFound(s: Store, orderId: Id, courierId: Id, now: Time, k: int, m: int)
    requires FirstKeyAt(s.orders, OrderKey, orderId, k) && FirstKeyAt(s.couriers, CourierKey, courierId, m)
    ensures AssignCourier(s, orderId, courierId, now) ==
              Store(s.pizzas,
                    BindCourier(ReleaseCourier(s.couriers, s.orders[k].courierId), courierId, orderId),
                    UpdateWhere(s.orders, o => OrderIdIs(orderId, o), o => Assigned(o, s.couriers[m], courierId, now)))
  {
    FindOrderIsFirst(s.orders, orderId);
    FindCourierIsFirst(s.couriers, courierId);
  }

  /** handleAssignCourier as written: both `setCouriers` calls start from
      the same `couriers` snapshot and the second one replaces the first, so
      the release step never reaches the store. */
  function AssignCourierAsWritten(s: Store, orderId: Id, courierId: Id, now: Time): (r: Store)
    ensures r.pizzas == s.pizzas
    ensures !HasOrder(s, orderId) || !HasCourier(s, courierId) ==> r == s
    ensures r.orders == AssignCourier(s, orderId, courierId, now).orders
    ensures HasOrder(s, orderId) && HasCourier(s, courierId) ==>
              |r.couriers| == |s.couriers| &&
              forall i :: 0 <= i < |s.couriers| ==>
                r.couriers[i] == if s.couriers[i].id == courierId then Bind(s.couriers[i], orderId) else s.couriers[i]
  {
    var order := FindOrder(s.orders, orderId);
    var courier := FindCourier(s.couriers, courierId);
    if order.None? || courier.None? then s
    else
      Store(s.pizzas,
            BindCourier(s.couriers, courierId, orderId),
            UpdateWhere(s.orders, o => OrderIdIs(orderId, o), o => Assigned(o, courier.value, courierId, now)))
  }
}
