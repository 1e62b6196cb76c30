/** The records of the pizza CRM (src/types/index.ts) and the small
    wrappers the handlers need to talk about optional fields and refusals. */
module Types {

  /** An optional field: `undefined` in the source is `None`. */
  datatype Option<+T> = None | Some(value: T)

  /** The outcome of an operation the store may refuse (the source shows an
      `alert` and leaves the state as it was). */
  datatype Result<+T> = Ok(value: T) | Refused(message: string)

  /** Identifiers are strings (`Date.now().toString()` for new records). */
  type Id = string

  /** JavaScript truthiness of an optional string: `undefined` and `''`
      are both falsy. The handlers test `order.courierId` and
      `courier?.currentOrderId` this way. */
  predicate Truthy(o: Option<string>)
  {
    o.Some? && o.value != ""
  }

  /** A menu item. Prices are whole roubles. */
  datatype Pizza = Pizza(
    id: Id,
    name: string,
    description: string,
    price: int,
    image: string,
    available: bool)

  /** A courier is exactly one of free and busy. */
  datatype CourierStatus = Free | Busy

  datatype Courier = Courier(
    id: Id,
    name: string,
    phone: string,
    status: CourierStatus,
    currentOrderId: Option<Id>)

  /** A line item: a reference to the pizza plus a snapshot of its name and
      unit price taken when the order was created. */
  datatype OrderItem = OrderItem(
    pizzaId: Id,
    pizzaName: string,
    quantity: int,
    price: int)

  /** Exactly one of six values; any status may follow any other. */
  datatype OrderStatus = Pending | Preparing | Ready | Delivering | Completed | Cancelled

  /** Timestamps are readings of a natural-number clock. */
  type Time = nat

  datatype Order = Order(
    id: Id,
    customerName: string,
    customerPhone: string,
    customerAddress: string,
    items: seq<OrderItem>,
    total: int,
    status: OrderStatus,
    courierId: Option<Id>,
    courierName: Option<string>,
    createdAt: Time,
    updatedAt: Time)

  /** Completed and cancelled orders have left the pipeline. */
  predicate IsClosed(st: OrderStatus)
  {
    st == Completed || st == Cancelled
  }

  /** Every order status, once each. */
  const AllOrderStatuses: seq<OrderStatus> :=
    [Pending, Preparing, Ready, Delivering, Completed, Cancelled]

  /** The status enumeration has exactly six members and the active/closed
      split is decided by the status alone. */
  lemma OrderStatusIsOneOfSix(st: OrderStatus)
    ensures st in AllOrderStatuses
    ensures |AllOrderStatuses| == 6
    ensures forall i, j :: 0 <= i < j < 6 ==> AllOrderStatuses[i] != AllOrderStatuses[j]
    ensures IsClosed(st) <==> st in AllOrderStatuses[4..]
  {
  }

  /** `Omit<Pizza, 'id'>`: what the menu form hands to the store. */
  datatype PizzaDraft = PizzaDraft(
    name: string,
    description: string,
    price: int,
    image: string,
    available: bool)

  /** `Omit<Courier, 'id'>`. */
  datatype CourierDraft = CourierDraft(
    name: string,
    phone: string,
    status: CourierStatus,
    currentOrderId: Option<Id>)

  /** `Omit<Order, 'id' | 'createdAt' | 'updatedAt'>`. */
  datatype OrderDraft = OrderDraft(
    customerName: string,
    customerPhone: string,
    customerAddress: string,
    items: seq<OrderItem>,
    total: int,
    status: OrderStatus,
    courierId: Option<Id>,
    courierName: Option<string>)

  /** `Partial<Pizza>`: a field is overwritten when it is present. */
  datatype PizzaPatch = PizzaPatch(
    id: Option<Id>,
    name: Option<string>,
    description: Option<string>,
    price: Option<int>,
    image: Option<string>,
    available: Option<bool>)

  /** `Partial<Courier>`. For the optional field the outer `Option` says
      whether the key is present, the inner one whether it holds a value
      (`Some(None)` is an explicit `undefined`). */
  datatype CourierPatch = CourierPatch(
    id: Option<Id>,
    name: Option<string>,
    phone: Option<string>,
    status: Option<CourierStatus>,
    currentOrderId: Option<Option<Id>>)

  /** `Partial<Order>`, with the same convention for optional fields. */
  datatype OrderPatch = OrderPatch(
    id: Option<Id>,
    customerName: Option<string>,
    customerPhone: Option<string>,
    customerAddress: Option<string>,
    items: Option<seq<OrderItem>>,
    total: Option<int>,
    status: Option<OrderStatus>,
    courierId: Option<Option<Id>>,
    courierName: Option<Option<string>>,
    createdAt: Option<Time>,
    updatedAt: Option<Time>)

  /** The id of each record, as a key for the lookups and the distinctness
      invariant. */
  function PizzaKey(p: Pizza): Id { p.id }
  function CourierKey(c: Courier): Id { c.id }
  function OrderKey(o: Order): Id { o.id }

  /** Object spread of one present-or-absent key. */
  function Pick<T>(patched: Option<T>, current: T): T
  {
    match patched
    case Some(v) => v
    case None => current
  }

  /** `{ ...pizza, ...updates }`. */
  function MergePizza(p: Pizza, u: PizzaPatch): (r: Pizza)
  {
    Pizza(Pick(u.id, p.id), Pick(u.name, p.name), Pick(u.description, p.description),
          Pick(u.price, p.price), Pick(u.image, p.image), Pick(u.available, p.available))
  }

  /** `{ ...courier, ...updates }`. */
  function MergeCourier(c: Courier, u: CourierPatch): (r: Courier)
  {
    Courier(Pick(u.id, c.id), Pick(u.name, c.name), Pick(u.phone, c.phone),
            Pick(u.status, c.status), Pick(u.currentOrderId, c.currentOrderId))
  }

  /** `{ ...order, ...updates }` (the store then overrides `updatedAt`). */
  function MergeOrder(o: Order, u: OrderPatch): (r: Order)
  {
    Order(Pick(u.id, o.id), Pick(u.customerName, o.customerName),
          Pick(u.customerPhone, o.customerPhone), Pick(u.customerAddress, o.customerAddress),
          Pick(u.items, o.items), Pick(u.total, o.total), Pick(u.status, o.status),
          Pick(u.courierId, o.courierId), Pick(u.courierName, o.courierName),
          Pick(u.createdAt, o.createdAt), Pick(u.updatedAt, o.updatedAt))
  }

  /** The patch that leaves every field alone. */
  const EmptyPizzaPatch := PizzaPatch(None, None, None, None, None, None)
  const EmptyCourierPatch := CourierPatch(None, None, None, None, None)
  const EmptyOrderPatch := OrderPatch(None, None, None, None, None, None, None, None, None, None, None)

  /** The patch the status selector sends: `{ status: newStatus }`. */
  function StatusPatch(st: OrderStatus): OrderPatch
  {
    OrderPatch(None, None, None, None, None, None, Some(st), None, None, None, None)
  }

  /** A spread merge keeps every field the patch leaves out, takes every
      field it carries, and applying the same patch again changes nothing. */
  lemma MergeCourierLaws(c: Courier, u: CourierPatch)
    ensures MergeCourier(c, EmptyCourierPatch) == c
    ensures var r := MergeCourier(c, u);
            && (u.id.Some? ==> r.id == u.id.value) && (u.id.None? ==> r.id == c.id)
            && (u.name.Some? ==> r.name == u.name.value) && (u.name.None? ==> r.name == c.name)
            && (u.phone.Some? ==> r.phone == u.phone.value) && (u.phone.None? ==> r.phone == c.phone)
            && (u.status.Some? ==> r.status == u.status.value) && (u.status.None? ==> r.status == c.status)
            && (u.currentOrderId.Some? ==> r.currentOrderId == u.currentOrderId.value)
            && (u.currentOrderId.None? ==> r.currentOrderId == c.currentOrderId)
    ensures MergeCourier(MergeCourier(c, u), u) == MergeCourier(c, u)
  {
  }

  lemma MergePizzaLaws(p: Pizza, u: PizzaPatch)
    ensures MergePizza(p, EmptyPizzaPatch) == p
    ensures var r := MergePizza(p, u);
            && (u.id.Some? ==> r.id == u.id.value) && (u.id.None? ==> r.id == p.id)
            && (u.name.Some? ==> r.name == u.name.value) && (u.name.None? ==> r.name == p.name)
            && (u.description.Some? ==> r.description == u.description.value)
            && (u.description.None? ==> r.description == p.description)
            && (u.price.Some? ==> r.price == u.price.value) && (u.price.None? ==> r.price == p.price)
            && (u.image.Some? ==> r.image == u.image.value) && (u.image.None? ==> r.image == p.image)
            && (u.available.Some? ==> r.available == u.available.value)
            && (u.available.None? ==> r.available == p.available)
    ensures MergePizza(MergePizza(p, u), u) == MergePizza(p, u)
  {
  }

  /** One key of a spread: taken when present, kept when absent, and
      spreading the same key twice changes nothing. */
  lemma PickLaws<T>(patched: Option<T>, current: T)
    ensures patched.Some? ==> Pick(patched, current) == patched.value
    ensures patched.None? ==> Pick(patched, current) == current
    ensures Pick(patched, Pick(patched, current)) == Pick(patched, current)
  {
  }

  lemma MergeOrderLaws(o: Order, u: OrderPatch)
    ensures MergeOrder(o, EmptyOrderPatch) == o
    ensures (u.id.Some? ==> MergeOrder(o, u).id == u.id.value) && (u.id.None? ==> MergeOrder(o, u).id == o.id)
    ensures (u.customerName.Some? ==> MergeOrder(o, u).customerName == u.customerName.value) && (u.customerName.None? ==> MergeOrder(o, u).customerName == o.customerName)
    ensures (u.customerPhone.Some? ==> MergeOrder(o, u).customerPhone == u.customerPhone.value) && (u.customerPhone.None? ==> MergeOrder(o, u).customerPhone == o.customerPhone)
    ensures (u.customerAddress.Some? ==> MergeOrder(o, u).customerAddress == u.customerAddress.value) && (u.customerAddress.None? ==> MergeOrder(o, u).customerAddress == o.customerAddress)
    ensures (u.items.Some? ==> MergeOrder(o, u).items == u.items.value) && (u.items.None? ==> MergeOrder(o, u).items == o.items)
    ensures (u.total.Some? ==> MergeOrder(o, u).total == u.total.value) && (u.total.None? ==> MergeOrder(o, u).total == o.total)
    ensures (u.status.Some? ==> MergeOrder(o, u).status == u.status.value) && (u.status.None? ==> MergeOrder(o, u).status == o.status)
    ensures (u.courierId.Some? ==> MergeOrder(o, u).courierId == u.courierId.value) && (u.courierId.None? ==> MergeOrder(o, u).courierId == o.courierId)
    ensures (u.courierName.Some? ==> MergeOrder(o, u).courierName == u.courierName.value) && (u.courierName.None? ==> MergeOrder(o, u).courierName == o.courierName)
    ensures (u.createdAt.Some? ==> MergeOrder(o, u).createdAt == u.createdAt.value) && (u.createdAt.None? ==> MergeOrder(o, u).createdAt == o.createdAt)
    ensures (u.updatedAt.Some? ==> MergeOrder(o, u).updatedAt == u.updatedAt.value) && (u.updatedAt.None? ==> MergeOrder(o, u).updatedAt == o.updatedAt)
    ensures MergeOrder(MergeOrder(o, u), u) == MergeOrder(o, u)
  {
    var r := MergeOrder(o, u);
    assert MergeOrder(o, EmptyOrderPatch) == o;
    PickLaws(u.id, o.id);
    PickLaws(u.customerName, o.customerName);
    PickLaws(u.customerPhone, o.customerPhone);
    PickLaws(u.customerAddress, o.customerAddress);
    PickLaws(u.items, o.items);
    PickLaws(u.total, o.total);
    PickLaws(u.status, o.status);
    PickLaws(u.courierId, o.courierId);
    PickLaws(u.courierName, o.courierName);
    PickLaws(u.createdAt, o.createdAt);
    PickLaws(u.updatedAt, o.updatedAt);
    assert MergeOrder(r, u) == r;
  }

  /** A status-only patch changes the status and nothing else. */
  lemma StatusPatchTouchesOnlyStatus(o: Order, st: OrderStatus)
    ensures MergeOrder(o, StatusPatch(st)) == o.(status := st)
  {
  }
}
