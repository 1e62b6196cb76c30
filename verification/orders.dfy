/** The order screen (src/components/OrderManagement.tsx): building an
    order from the draft form, editing the draft's item list, and the
    read-side projections and pickers the screen derives from the store. */
module OrderManagement {
  import opened Types
  import opened Collection
  import opened App

  /** One row of the draft form: a pizza reference and a quantity. */
  datatype DraftItem = DraftItem(pizzaId: Id, quantity: int)

  datatype OrderForm = OrderForm(
    customerName: string,
    customerPhone: string,
    customerAddress: string,
    items: seq<DraftItem>)

  /* ------------------------------------------------------ line items, total */

  /** A line item snapshots the name and unit price of the pizza it names.
      A pizza that is not on the menu gives `''` and 0 (`pizza?.name || ''`,
      `pizza?.price || 0`; a present but empty name or zero price falls back
      to the same values). */
  function Snapshot(pizzas: seq<Pizza>, d: DraftItem): (r: OrderItem)
    ensures r.pizzaId == d.pizzaId && r.quantity == d.quantity
    ensures forall k :: FirstKeyAt(pizzas, PizzaKey, d.pizzaId, k) ==>
              r.pizzaName == pizzas[k].name && r.price == pizzas[k].price
    ensures (forall k :: 0 <= k < |pizzas| ==> pizzas[k].id != d.pizzaId) ==>
              r.pizzaName == "" && r.price == 0
  {
    var p := FindPizza(pizzas, d.pizzaId);
    OrderItem(d.pizzaId, if p.Some? then p.value.name else "", d.quantity, if p.Some? then p.value.price else 0)
  }

  /** `formData.items.map(...)`: one snapshot per draft row, in order. */
  function SnapshotItems(pizzas: seq<Pizza>, items: seq<DraftItem>): (r: seq<OrderItem>)
    ensures |r| == |items|
    ensures forall i :: 0 <= i < |items| ==> r[i] == Snapshot(pizzas, items[i])
    ensures forall i :: 0 <= i < |items| ==>
              r[i].pizzaId == items[i].pizzaId && r[i].quantity == items[i].quantity
    ensures forall i, k :: 0 <= i < |items| && FirstKeyAt(pizzas, PizzaKey, items[i].pizzaId, k) ==>
              r[i].pizzaName == pizzas[k].name && r[i].price == pizzas[k].price
    ensures forall i :: 0 <= i < |items| && (forall k :: 0 <= k < |pizzas| ==> pizzas[k].id != items[i].pizzaId) ==>
              r[i].pizzaName == "" && r[i].price == 0
  {
    seq(|items|, i requires 0 <= i < |items| => Snapshot(pizzas, items[i]))
  }

  function LineTotal(it: OrderItem): int
  {
    it.price * it.quantity
  }

  /** The order total: the sum of `price × quantity` over the items. One
      item gives its own line total, and the total is never negative when no
      price or quantity is. */
  function Total(items: seq<OrderItem>): (r: int)
    ensures |items| == 1 ==> r == items[0].price * items[0].quantity
    ensures (forall i :: 0 <= i < |items| ==> items[i].price >= 0 && items[i].quantity >= 0) ==> r >= 0
  {
    if |items| == 0 then 0 else LineTotal(items[0]) + Total(items[1..])
  }

  /** The total is additive over concatenation; with `Total([]) == 0` and
      `Total([x]) == LineTotal(x)` this pins it down. */
  lemma {:induction false} TotalAppend(a: seq<OrderItem>, b: seq<OrderItem>)
    ensures Total(a + b) == Total(a) + Total(b)
  {
    if |a| > 0 {
      assert (a + b)[1..] == a[1..] + b;
      TotalAppend(a[1..], b);
    } else {
      assert a + b == b;
    }
  }

  /** `orderItems.reduce((sum, item) => sum + item.price * item.quantity, 0)`:
      a left-to-right accumulation that equals `Total`. */
  method ReduceTotal(items: seq<OrderItem>) returns (sum: int)
    ensures sum == Total(items)
  {
    sum := 0;
    var i := 0;
    while i < |items|
      invariant 0 <= i <= |items|
      invariant sum == Total(items[..i])
    {
      TotalAppend(items[..i], [items[i]]);
      assert items[..i + 1] == items[..i] + [items[i]];
      sum := sum + items[i].price * items[i].quantity;
      i := i + 1;
    }
    assert items[..i] == items;
  }

  /** handleSubmit's payload: snapshot items, their total, status pending,
      no courier. The submit button is disabled while the list is empty. */
  function OrderDraftOf(pizzas: seq<Pizza>, form: OrderForm): (r: OrderDraft)
    requires |form.items| > 0
    ensures |r.items| == |form.items| > 0
    ensures r.items == SnapshotItems(pizzas, form.items)
    ensures r.total == Total(r.items)
    ensures r.status == Pending && r.courierId.None? && r.courierName.None?
    ensures r.customerName == form.customerName && r.customerPhone == form.customerPhone &&
            r.customerAddress == form.customerAddress
  {
    var items := SnapshotItems(pizzas, form.items);
    OrderDraft(form.customerName, form.customerPhone, form.customerAddress, items, Total(items), Pending, None, None)
  }

  /** Submitting the form adds the new order to the store. */
  function SubmitOrder(s: Store, form: OrderForm, newId: Id, now: Time): (r: Store)
    requires |form.items| > 0
    ensures |r.orders| == |s.orders| + 1 && r.orders[..|s.orders|] == s.orders
    ensures var o := r.orders[|s.orders|];
              o.id == newId && o.status == Pending && o.courierId.None? && o.courierName.None? &&
              |o.items| == |form.items| > 0 && o.total == Total(o.items) &&
              o.createdAt == now && o.updatedAt == now
    ensures var o := r.orders[|s.orders|];
              o.items == SnapshotItems(s.pizzas, form.items) &&
              o.customerName == form.customerName && o.customerPhone == form.customerPhone &&
              o.customerAddress == form.customerAddress
    ensures r.pizzas == s.pizzas && r.couriers == s.couriers
  {
    AddOrder(s, OrderDraftOf(s.pizzas, form), newId, now)
  }

  /* ------------------------------------------------------- draft item list */

  /** `pizzas.filter(p => p.available)`: the available pizzas of the menu,
      every one of them. */
  function AvailablePizzas(pizzas: seq<Pizza>): (r: seq<Pizza>)
    ensures forall i :: 0 <= i < |r| ==> r[i] in pizzas && r[i].available
    ensures forall i :: 0 <= i < |pizzas| && pizzas[i].available ==> pizzas[i] in r
  {
    Filter(pizzas, (p: Pizza) => p.available)
  }

  /** addPizzaToOrder: append the first available pizza with quantity 1;
      nothing happens when no pizza is available. */
  function AddPizzaToOrder(pizzas: seq<Pizza>, items: seq<DraftItem>): (r: seq<DraftItem>)
    ensures (forall k :: 0 <= k < |pizzas| ==> !pizzas[k].available) ==> r == items
    ensures forall k :: 0 <= k < |pizzas| && pizzas[k].available &&
                        (forall j :: 0 <= j < k ==> !pizzas[j].available) ==>
              r == items + [DraftItem(pizzas[k].id, 1)]
  {
    var available := AvailablePizzas(pizzas);
    if |available| > 0 then
      assert forall k :: 0 <= k < |pizzas| && pizzas[k].available && (forall j :: 0 <= j < k ==> !pizzas[j].available) ==>
        available[0] == pizzas[k] by {
        forall k | 0 <= k < |pizzas| && pizzas[k].available && (forall j :: 0 <= j < k ==> !pizzas[j].available)
          ensures available[0] == pizzas[k]
        {
          FilterHead(pizzas, (p: Pizza) => p.available, k);
        }
      }
      items + [DraftItem(available[0].id, 1)]
    else items
  }

  /** removePizzaFromOrder: `items.filter((_, i) => i !== index)`. */
  method RemovePizzaFromOrder(items: seq<DraftItem>, index: int) returns (r: seq<DraftItem>)
    ensures 0 <= index < |items| ==> r == items[..index] + items[index + 1..]
    ensures !(0 <= index < |items|) ==> r == items
  {
    r := [];
    var i := 0;
    while i < |items|
      invariant 0 <= i <= |items|
      invariant 0 <= index < i ==> r == items[..index] + items[index + 1..i]
      invariant !(0 <= index < i) ==> r == items[..i]
    {
      if i != index {
        r := r + [items[i]];
      }
      i := i + 1;
    }
    if !(0 <= index < |items|) {
      assert items[..i] == items;
    }
  }

  /** updatePizzaInOrder: row `index` becomes the chosen pizza and quantity;
      the quantity input has `min="1"`. */
  function UpdatePizzaInOrder(items: seq<DraftItem>, index: int, pizzaId: Id, quantity: int): (r: seq<DraftItem>)
    requires 0 <= index < |items|
    requires quantity >= 1
    ensures |r| == |items|
    ensures r[index].pizzaId == pizzaId && r[index].quantity == quantity
    ensures forall j :: 0 <= j < |items| && j != index ==> r[j] == items[j]
  {
    items[index := DraftItem(pizzaId, quantity)]
  }

  /** Every row of a draft has a positive quantity. */
  predicate PositiveQuantities(items: seq<DraftItem>)
  {
    forall i :: 0 <= i < |items| ==> items[i].quantity >= 1
  }

  /** The three editing actions keep every quantity positive, so every
      submitted line item has quantity at least 1. */
  lemma EditingKeepsPositiveQuantities(pizzas: seq<Pizza>, items: seq<DraftItem>, index: int, pizzaId: Id, quantity: int)
    requires PositiveQuantities(items)
    requires 0 <= index < |items| && quantity >= 1
    ensures PositiveQuantities(AddPizzaToOrder(pizzas, items))
    ensures PositiveQuantities(UpdatePizzaInOrder(items, index, pizzaId, quantity))
    ensures PositiveQuantities(items[..index] + items[index + 1..])
    ensures forall i :: 0 <= i < |items| ==> SnapshotItems(pizzas, items)[i].quantity >= 1
  {
  }

  /* ------------------------------------------------------------ projections */

  predicate IsActive(o: Order) { !IsClosed(o.status) }
  predicate IsFinished(o: Order) { IsClosed(o.status) }

  /** `activeOrders`: the orders whose status is neither completed nor
      cancelled, every one of them. */
  function ActiveOrders(os: seq<Order>): (r: seq<Order>)
    ensures forall i :: 0 <= i < |r| ==> r[i] in os && !IsClosed(r[i].status)
    ensures forall i :: 0 <= i < |os| && !IsClosed(os[i].status) ==> os[i] in r
  {
    Filter(os, IsActive)
  }

  /** `completedOrders`: the orders whose status is completed or cancelled,
      every one of them. */
  function CompletedOrders(os: seq<Order>): (r: seq<Order>)
    ensures forall i :: 0 <= i < |r| ==> r[i] in os && IsClosed(r[i].status)
    ensures forall i :: 0 <= i < |os| && IsClosed(os[i].status) ==> os[i] in r
  {
    Filter(os, IsFinished)
  }

  /** The two lists partition the orders: each order is in exactly one,
      and their lengths add up to the number of orders. */
  lemma OrdersPartition(os: seq<Order>)
    ensures forall i :: 0 <= i < |os| ==> (os[i] in ActiveOrders(os) <==> !(os[i] in CompletedOrders(os)))
    ensures forall i :: 0 <= i < |os| ==> (os[i] in ActiveOrders(os) || os[i] in CompletedOrders(os))
    ensures |ActiveOrders(os)| + |CompletedOrders(os)| == |os|
  {
    FilterCount(os, IsActive);
    FilterCount(os, IsFinished);
    CountComplement(os, IsActive, IsFinished);
  }

  function SumTotals(os: seq<Order>): int
  {
    if |os| == 0 then 0 else SumTotals(os[..|os| - 1]) + os[|os| - 1].total
  }

  predicate IsCompleted(o: Order) { o.status == Completed }

  /** The revenue card: completed orders (not cancelled ones) from the
      finished list, their totals summed. It shows exactly the reference sum
      over the completed orders. */
  function Revenue(os: seq<Order>): (r: int)
    ensures r == CompletedRevenue(os)
  {
    CardSumIsCompletedRevenue(os);
    SumTotals(Filter(CompletedOrders(os), IsCompleted))
  }

  /** Reference definition: the totals of the completed orders. */
  function CompletedRevenue(os: seq<Order>): int
  {
    if |os| == 0 then 0 else (if os[0].status == Completed then os[0].total else 0) + CompletedRevenue(os[1..])
  }

  lemma {:induction false} SumTotalsCons(o: Order, os: seq<Order>)
    ensures SumTotals([o] + os) == o.total + SumTotals(os)
  {
    if |os| > 0 {
      assert ([o] + os)[..|[o] + os| - 1] == [o] + os[..|os| - 1];
      SumTotalsCons(o, os[..|os| - 1]);
    }
  }

  /** The card's filter-filter-reduce equals the reference sum. */
  lemma {:induction false} CardSumIsCompletedRevenue(os: seq<Order>)
    ensures SumTotals(Filter(CompletedOrders(os), IsCompleted)) == CompletedRevenue(os)
  {
    if |os| > 0 {
      CardSumIsCompletedRevenue(os[1..]);
      if os[0].status == Completed {
        SumTotalsCons(os[0], Filter(CompletedOrders(os[1..]), IsCompleted));
      }
    }
  }

  lemma {:induction false} CompletedRevenueAppend(a: seq<Order>, b: seq<Order>)
    ensures CompletedRevenue(a + b) == CompletedRevenue(a) + CompletedRevenue(b)
  {
    if |a| > 0 {
      assert (a + b)[1..] == a[1..] + b;
      CompletedRevenueAppend(a[1..], b);
    } else {
      assert a + b == b;
    }
  }

  /** A cancelled (or any not completed) order adds nothing to the revenue;
      a completed one adds its total. */
  lemma RevenueOfNewOrder(os: seq<Order>, o: Order)
    ensures o.status != Completed ==> Revenue(os + [o]) == Revenue(os)
    ensures o.status == Completed ==> Revenue(os + [o]) == Revenue(os) + o.total
  {
    CompletedRevenueAppend(os, [o]);
  }

  /* ---------------------------------------------------- pickers and guards */

  /** The courier picker of an order: free couriers and the order's own. */
  function CourierCandidates(cs: seq<Courier>, o: Order): (r: seq<Courier>)
    ensures forall i :: 0 <= i < |r| ==> r[i] in cs && (r[i].status == Free || o.courierId == Some(r[i].id))
    ensures forall i :: 0 <= i < |cs| && (cs[i].status == Free || o.courierId == Some(cs[i].id)) ==> cs[i] in r
  {
    Filter(cs, (c: Courier) => c.status == Free || o.courierId == Some(c.id))
  }

  /** The picker offers a courier of the roster exactly when it is free or
      already on the order. */
  lemma CandidateIffFreeOrCurrent(cs: seq<Courier>, o: Order, k: int)
    requires 0 <= k < |cs|
    ensures cs[k] in CourierCandidates(cs, o) <==> cs[k].status == Free || o.courierId == Some(cs[k].id)
  {
    var r := CourierCandidates(cs, o);
    if cs[k] in r {
      var i :| 0 <= i < |r| && r[i] == cs[k];
    }
  }

  /** The status selector and the delete button are rendered only for
      orders in the active list. */
  function ShownAsActive(s: Store, id: Id): (b: bool)
    ensures b <==> exists j :: 0 <= j < |ActiveOrders(s.orders)| && ActiveOrders(s.orders)[j].id == id
  {
    ActiveListHasId(s.orders, id);
    exists i :: 0 <= i < |s.orders| && s.orders[i].id == id && IsActive(s.orders[i])
  }

  /** The courier picker is enabled only for active orders and offers only
      the candidates; `courierId` is the id of the candidate picked. */
  predicate CanAssign(s: Store, orderId: Id, courierId: Id)
  {
    exists i, k :: 0 <= i < |s.orders| && 0 <= k < |s.couriers| &&
      s.orders[i].id == orderId && IsActive(s.orders[i]) &&
      s.couriers[k].id == courierId && s.couriers[k] in CourierCandidates(s.couriers, s.orders[i])
  }

  /** The guard holds exactly when the active list shows an order with the
      id whose candidate list offers a courier with the other id. */
  lemma CanAssignMatchesPicker(s: Store, orderId: Id, courierId: Id)
    ensures CanAssign(s, orderId, courierId) <==>
            exists j, m :: 0 <= j < |ActiveOrders(s.orders)| &&
              0 <= m < |CourierCandidates(s.couriers, ActiveOrders(s.orders)[j])| &&
              ActiveOrders(s.orders)[j].id == orderId &&
              CourierCandidates(s.couriers, ActiveOrders(s.orders)[j])[m].id == courierId
  {
    PickerHasIds(s.orders, s.couriers, orderId, courierId);
  }

  /** Some active order has the id exactly when the active list shows one. */
  lemma ActiveListHasId(os: seq<Order>, id: Id)
    ensures (exists i :: 0 <= i < |os| && os[i].id == id && IsActive(os[i])) <==>
            (exists j :: 0 <= j < |ActiveOrders(os)| && ActiveOrders(os)[j].id == id)
  {
    var a := ActiveOrders(os);
    if i :| 0 <= i < |os| && os[i].id == id && IsActive(os[i]) {
      assert os[i] in a;
      var j :| 0 <= j < |a| && a[j] == os[i];
    }
    if j :| 0 <= j < |a| && a[j].id == id {
      assert a[j] in os;
      var i :| 0 <= i < |os| && os[i] == a[j];
    }
  }

  /** Some active order with the id offers a courier with the other id
      exactly when the active list shows such an order with such a
      candidate. */
  lemma PickerHasIds(os: seq<Order>, cs: seq<Courier>, orderId: Id, courierId: Id)
    ensures (exists i, k :: 0 <= i < |os| && 0 <= k < |cs| &&
               os[i].id == orderId && IsActive(os[i]) &&
               cs[k].id == courierId && cs[k] in CourierCandidates(cs, os[i])) <==>
            (exists j, m :: 0 <= j < |ActiveOrders(os)| &&
               0 <= m < |CourierCandidates(cs, ActiveOrders(os)[j])| &&
               ActiveOrders(os)[j].id == orderId &&
               CourierCandidates(cs, ActiveOrders(os)[j])[m].id == courierId)
  {
    var a := ActiveOrders(os);
    if i, k :| 0 <= i < |os| && 0 <= k < |cs| && os[i].id == orderId && IsActive(os[i]) &&
               cs[k].id == courierId && cs[k] in CourierCandidates(cs, os[i]) {
      assert os[i] in a;
      var j :| 0 <= j < |a| && a[j] == os[i];
      var m :| 0 <= m < |CourierCandidates(cs, a[j])| && CourierCandidates(cs, a[j])[m] == cs[k];
    }
    if j, m :| 0 <= j < |a| && 0 <= m < |CourierCandidates(cs, a[j])| &&
               a[j].id == orderId && CourierCandidates(cs, a[j])[m].id == courierId {
      var c := CourierCandidates(cs, a[j]);
      assert a[j] in os && c[m] in cs;
      var i :| 0 <= i < |os| && os[i] == a[j];
      var k :| 0 <= k < |cs| && cs[k] == c[m];
      assert cs[k] in CourierCandidates(cs, os[i]);
    }
  }
}
