/** The courier/order binding that the handlers of src/App.tsx keep, and
    the conditions under which they keep it. The store itself never checks
    that a courier is free or that an order is still active: those checks
    live in the screens (the courier picker offers only free couriers and
    the order's own, and status, picker and delete controls are rendered
    only for active orders). The preservation lemmas take those checks as
    preconditions; the counterexamples below show what happens without
    them. */
module Coordination {
  import opened Types
  import opened Collection
  import opened App
  import opened Seed
  import opened OrderManagement
  import opened CourierManagement

  /** No two couriers share an id. */
  predicate CourierIdsDistinct(cs: seq<Courier>)
  {
    DistinctBy(cs, CourierKey)
  }

  /** No two orders share an id. */
  predicate OrderIdsDistinct(os: seq<Order>)
  {
    DistinctBy(os, OrderKey)
  }

  /** A courier is busy exactly when it holds an order, and the order it
      holds exists, is active and names it back. */
  predicate CourierBound(s: Store, c: Courier)
  {
    && (c.status == Busy <==> c.currentOrderId.Some?)
    && (c.currentOrderId.Some? ==>
          exists j :: 0 <= j < |s.orders| && s.orders[j].id == c.currentOrderId.value &&
                      s.orders[j].courierId == Some(c.id) && IsActive(s.orders[j]))
  }

  /** An active order that names a courier is held by that courier. */
  predicate OrderBound(s: Store, o: Order)
  {
    IsActive(o) && o.courierId.Some? ==>
      exists k :: 0 <= k < |s.couriers| && s.couriers[k].id == o.courierId.value &&
                  s.couriers[k].currentOrderId == Some(o.id)
  }

  /** The store invariant: distinct non-empty ids for couriers and orders,
      and the binding holds in both directions. */
  predicate Inv(s: Store)
  {
    && CourierIdsDistinct(s.couriers)
    && OrderIdsDistinct(s.orders)
    && (forall k :: 0 <= k < |s.couriers| ==> s.couriers[k].id != "")
    && (forall j :: 0 <= j < |s.orders| ==> s.orders[j].id != "")
    && (forall k :: 0 <= k < |s.couriers| ==> CourierBound(s, s.couriers[k]))
    && (forall j :: 0 <= j < |s.orders| ==> OrderBound(s, s.orders[j]))
  }

  /* ------------------------------------------------------------ seed store */

  /** The initial store is consistent: courier 3 is busy on order 1, which
      names courier 3; the others are free. This holds whatever the menu. */
  lemma SeedSatisfiesInv(ps: seq<Pizza>)
    ensures Inv(SeedStoreWith(ps))
    ensures SeedStoreWith(ps).couriers[2].status == Busy && SeedStoreWith(ps).couriers[2].currentOrderId == Some("1")
    ensures SeedStoreWith(ps).orders[0].courierId == Some(SeedStoreWith(ps).couriers[2].id)
  {
    var s := SeedStoreWith(ps);
    var cs, os := s.couriers, s.orders;
    assert |cs| == 3 && cs[0].id == "1" && cs[1].id == "2" && cs[2].id == "3";
    assert |os| == 2 && os[0].id == "1" && os[1].id == "2";
    assert CourierIdsDistinct(cs);
    assert OrderIdsDistinct(os);
    assert cs[0].currentOrderId.None? && cs[1].currentOrderId.None? && cs[0].status == Free && cs[1].status == Free;
    assert os[0].courierId == Some("3") && os[0].status == Delivering && os[1].courierId.None?;
    assert CourierBound(s, cs[2]) by {
      assert cs[2].currentOrderId == Some("1") && cs[2].status == Busy;
    }
    assert OrderBound(s, os[0]);
  }

  /** The store the application starts with is consistent. */
  lemma InitialStoreSatisfiesInv()
    ensures Inv(SeedStore)
  {
    SeedSatisfiesInv(SeedPizzas);
  }

  /* ------------------------------------------------------- roster handlers */

  /** CourierBound looks only at the orders. */
  lemma CourierBoundFrame(s: Store, t: Store, c: Courier)
    requires s.orders == t.orders
    ensures CourierBound(s, c) == CourierBound(t, c)
  {
  }

  /** Menu edits never touch the binding. */
  lemma PizzaOpsPreserveInv(s: Store, draft: PizzaDraft, newId: Id, id: Id, u: PizzaPatch)
    requires Inv(s)
    ensures Inv(AddPizza(s, draft, newId))
    ensures Inv(UpdatePizza(s, id, u))
    ensures Inv(DeletePizza(s, id))
  {
  }

  /** Adding a courier from the form (free, no order) under a new id keeps
      the invariant. */
  lemma AddCourierPreservesInv(s: Store, f: CourierForm, newId: Id)
    requires Inv(s)
    requires newId != "" && !HasCourier(s, newId)
    ensures Inv(SubmitCourierForm(s, None, f, newId))
  {
    var r := SubmitCourierForm(s, None, f, newId);
    forall j | 0 <= j < |r.orders| ensures OrderBound(r, r.orders[j])
    {
      var o := r.orders[j];
      if IsActive(o) && o.courierId.Some? {
        assert OrderBound(s, s.orders[j]);
        var k :| 0 <= k < |s.couriers| && s.couriers[k].id == o.courierId.value &&
                 s.couriers[k].currentOrderId == Some(o.id);
        assert r.couriers[k] == s.couriers[k];
      }
    }
    forall k | 0 <= k < |r.couriers| ensures CourierBound(r, r.couriers[k])
    {
      if k < |s.couriers| {
        assert r.couriers[k] == s.couriers[k];
        CourierBoundFrame(s, r, s.couriers[k]);
      }
    }
  }

  /** Saving the edit form (name and phone only) keeps the invariant. */
  lemma EditCourierPreservesInv(s: Store, c: Courier, f: CourierForm, newId: Id)
    requires Inv(s)
    ensures Inv(SubmitCourierForm(s, Some(c), f, newId))
  {
    var r := SubmitCourierForm(s, Some(c), f, newId);
    forall j | 0 <= j < |r.orders| ensures OrderBound(r, r.orders[j])
    {
      var o := r.orders[j];
      if IsActive(o) && o.courierId.Some? {
        assert OrderBound(s, s.orders[j]);
        var k :| 0 <= k < |s.couriers| && s.couriers[k].id == o.courierId.value &&
                 s.couriers[k].currentOrderId == Some(o.id);
        assert r.couriers[k].id == o.courierId.value && r.couriers[k].currentOrderId == Some(o.id);
      }
    }
    forall k | 0 <= k < |r.couriers| ensures CourierBound(r, r.couriers[k])
    {
      assert CourierBound(s, s.couriers[k]);
    }
    assert CourierIdsDistinct(r.couriers) by {
      forall i, j | 0 <= i < |r.couriers| && 0 <= j < |r.couriers| && r.couriers[i].id == r.couriers[j].id
        ensures i == j
      {
        assert s.couriers[i].id == s.couriers[j].id;
      }
    }
  }

  /** With distinct ids, the courier a deletion removes held no order. */
  lemma AcceptedDeleteHeldNoOrder(s: Store, id: Id, k: nat)
    requires CourierIdsDistinct(s.couriers)
    requires k < |s.couriers| && s.couriers[k].id == id
    requires DeleteCourier(s, id).Ok?
    ensures !Truthy(s.couriers[k].currentOrderId)
  {
    assert forall m :: 0 <= m < k ==> s.couriers[m].id != s.couriers[k].id;
  }

  /** `r` is `s` with couriers that held no order removed. */
  predicate RosterShrinks(s: Store, r: Store, id: Id)
  {
    && r.orders == s.orders && CourierIdsDistinct(r.couriers)
    && (forall k :: 0 <= k < |r.couriers| ==> r.couriers[k] in s.couriers)
    && (forall k :: 0 <= k < |s.couriers| && s.couriers[k].id != id ==> s.couriers[k] in r.couriers)
    && (forall k :: 0 <= k < |s.couriers| && s.couriers[k].id == id ==> !Truthy(s.couriers[k].currentOrderId))
  }

  lemma DeleteCourierShrinksRoster(s: Store, id: Id)
    requires Inv(s) && DeleteCourier(s, id).Ok?
    ensures RosterShrinks(s, DeleteCourier(s, id).value, id)
  {
    var keep := c => !CourierIdIs(id, c);
    FilterKeepsDistinct(s.couriers, keep, CourierKey);
    forall k | 0 <= k < |s.couriers| && s.couriers[k].id == id ensures !Truthy(s.couriers[k].currentOrderId)
    {
      AcceptedDeleteHeldNoOrder(s, id, k);
    }
  }

  lemma RosterShrinksKeepsInv(s: Store, r: Store, id: Id)
    requires Inv(s) && RosterShrinks(s, r, id)
    ensures Inv(r)
  {
    forall j | 0 <= j < |r.orders| ensures OrderBound(r, r.orders[j])
    {
      var o := r.orders[j];
      if IsActive(o) && o.courierId.Some? {
        assert OrderBound(s, s.orders[j]);
        var k :| 0 <= k < |s.couriers| && s.couriers[k].id == o.courierId.value &&
                 s.couriers[k].currentOrderId == Some(o.id);
        assert s.couriers[k].id != id;
        assert s.couriers[k] in r.couriers;
      }
    }
    forall k | 0 <= k < |r.couriers| ensures CourierBound(r, r.couriers[k])
    {
      var i :| 0 <= i < |s.couriers| && s.couriers[i] == r.couriers[k];
      assert CourierBound(s, s.couriers[i]);
      CourierBoundFrame(s, r, s.couriers[i]);
    }
  }

  /** A deletion the store accepts keeps the invariant: the store refuses
      exactly the couriers an active order could still be bound to. */
  lemma DeleteCourierPreservesInv(s: Store, id: Id)
    requires Inv(s)
    ensures DeleteCourier(s, id).Ok? ==> Inv(DeleteCourier(s, id).value)
  {
    if DeleteCourier(s, id).Ok? {
      DeleteCourierShrinksRoster(s, id);
      RosterShrinksKeepsInv(s, DeleteCourier(s, id).value, id);
    }
  }

  /** The delete button of the free list is never disabled. On a
      consistent store it agrees with the busy-list rule and with the
      store: a free courier holds no order, so its deletion is accepted. */
  lemma FreeCourierDeleteEnabled(s: Store, k: nat)
    requires Inv(s) && k < |s.couriers| && s.couriers[k].status == Free
    ensures DeleteEnabled(s.couriers[k])
    ensures DeleteCourier(s, s.couriers[k].id).Ok?
  {
    assert CourierBound(s, s.couriers[k]);
    CourierIsFirst(s, k);
  }

  /* ---------------------------------------------------------- binding facts */

  lemma OrderIndexUnique(s: Store, i: int, j: int)
    requires OrderIdsDistinct(s.orders)
    requires 0 <= i < |s.orders| && 0 <= j < |s.orders| && s.orders[i].id == s.orders[j].id
    ensures i == j
  {
  }

  lemma CourierIndexUnique(s: Store, i: int, j: int)
    requires CourierIdsDistinct(s.couriers)
    requires 0 <= i < |s.couriers| && 0 <= j < |s.couriers| && s.couriers[i].id == s.couriers[j].id
    ensures i == j
  {
  }

  /** With distinct ids, the order at `i` is the one `find` returns. */
  lemma OrderIsFirst(s: Store, i: int)
    requires OrderIdsDistinct(s.orders) && 0 <= i < |s.orders|
    ensures FirstKeyAt(s.orders, OrderKey, s.orders[i].id, i)
  {
    forall j | 0 <= j < i ensures s.orders[j].id != s.orders[i].id
    {
      if s.orders[j].id == s.orders[i].id { OrderIndexUnique(s, i, j); }
    }
  }

  lemma CourierIsFirst(s: Store, k: int)
    requires CourierIdsDistinct(s.couriers) && 0 <= k < |s.couriers|
    ensures FirstKeyAt(s.couriers, CourierKey, s.couriers[k].id, k)
  {
    forall j | 0 <= j < k ensures s.couriers[j].id != s.couriers[k].id
    {
      if s.couriers[j].id == s.couriers[k].id { CourierIndexUnique(s, k, j); }
    }
  }

  /** The courier an active order names holds that order. */
  lemma NamedCourierHolds(s: Store, j: int, k: int)
    requires Inv(s)
    requires 0 <= j < |s.orders| && 0 <= k < |s.couriers|
    requires IsActive(s.orders[j]) && s.orders[j].courierId == Some(s.couriers[k].id)
    ensures s.couriers[k].currentOrderId == Some(s.orders[j].id)
  {
    assert OrderBound(s, s.orders[j]);
    var k' :| 0 <= k' < |s.couriers| && s.couriers[k'].id == s.orders[j].courierId.value &&
              s.couriers[k'].currentOrderId == Some(s.orders[j].id);
    CourierIndexUnique(s, k, k');
  }

  /** The order a courier holds names that courier and is active. */
  lemma HeldOrderNames(s: Store, k: int, j: int)
    requires Inv(s)
    requires 0 <= j < |s.orders| && 0 <= k < |s.couriers|
    requires s.couriers[k].currentOrderId == Some(s.orders[j].id)
    ensures s.orders[j].courierId == Some(s.couriers[k].id) && IsActive(s.orders[j])
  {
    assert CourierBound(s, s.couriers[k]);
    var j' :| 0 <= j' < |s.orders| && s.orders[j'].id == s.couriers[k].currentOrderId.value &&
              s.orders[j'].courierId == Some(s.couriers[k].id) && IsActive(s.orders[j']);
    OrderIndexUnique(s, j, j');
  }

  /** Index `j0` is the one order with the id; with distinct ids the last
      order with that id naming a courier is `j0` when it names one. */
  lemma LastHolderIsTheOrder(s: Store, j0: int, k: int)
    requires OrderIdsDistinct(s.orders) && 0 <= j0 < |s.orders|
    ensures LastHolderAt(s.orders, s.orders[j0].id, k) <==> (k == j0 && Truthy(s.orders[j0].courierId))
  {
    if LastHolderAt(s.orders, s.orders[j0].id, k) {
      OrderIndexUnique(s, j0, k);
    }
    if k == j0 && Truthy(s.orders[j0].courierId) {
      forall j | k < j < |s.orders| ensures !(s.orders[j].id == s.orders[j0].id && Truthy(s.orders[j].courierId))
      {
        if s.orders[j].id == s.orders[j0].id { OrderIndexUnique(s, j0, j); }
      }
    }
  }

  /* --------------------------------------------------------- order handlers */

  /** Submitting a new order (pending, no courier) under a new id keeps the
      invariant. */
  lemma SubmitOrderPreservesInv(s: Store, form: OrderForm, newId: Id, now: Time)
    requires Inv(s)
    requires |form.items| > 0
    requires newId != "" && !HasOrder(s, newId)
    ensures Inv(SubmitOrder(s, form, newId, now))
  {
    var r := SubmitOrder(s, form, newId, now);
    AppendedOrderKeepsInv(s, r);
  }

  /** Appending an order that names no courier under a fresh id keeps the
      invariant. */
  lemma AppendedOrderKeepsInv(s: Store, r: Store)
    requires Inv(s) && r.couriers == s.couriers
    requires |r.orders| == |s.orders| + 1 && r.orders[..|s.orders|] == s.orders
    requires r.orders[|s.orders|].id != "" && r.orders[|s.orders|].courierId.None?
    requires !HasOrder(s, r.orders[|s.orders|].id)
    ensures Inv(r)
  {
    forall j | 0 <= j < |s.orders| ensures r.orders[j] == s.orders[j]
    {
      assert r.orders[..|s.orders|][j] == r.orders[j];
    }
    AppendedOrderKeepsCouriersBound(s, r);
    forall j | 0 <= j < |s.orders| ensures OrderBound(r, r.orders[j])
    {
      assert OrderBound(s, s.orders[j]);
    }
    assert OrderBound(r, r.orders[|s.orders|]);
  }

  lemma AppendedOrderKeepsCouriersBound(s: Store, r: Store)
    requires Inv(s) && r.couriers == s.couriers && |r.orders| >= |s.orders|
    requires forall j :: 0 <= j < |s.orders| ==> r.orders[j] == s.orders[j]
    ensures forall k :: 0 <= k < |r.couriers| ==> CourierBound(r, r.couriers[k])
  {
    forall k | 0 <= k < |r.couriers| ensures CourierBound(r, r.couriers[k])
    {
      var c := s.couriers[k];
      assert CourierBound(s, c);
      if c.currentOrderId.Some? {
        var j :| 0 <= j < |s.orders| && s.orders[j].id == c.currentOrderId.value &&
                 s.orders[j].courierId == Some(c.id) && IsActive(s.orders[j]);
        assert r.orders[j] == s.orders[j];
      }
    }
  }

  /** `r` is `s` after the active order at `j0` got status `st`: ids and
      courier references are kept, and closing the order released the
      courier it names. */
  predicate StatusStep(s: Store, r: Store, j0: int, st: OrderStatus)
  {
    && |r.orders| == |s.orders| && |r.couriers| == |s.couriers| && 0 <= j0 < |s.orders|
    && (forall j :: 0 <= j < |s.orders| ==>
          r.orders[j].id == s.orders[j].id && r.orders[j].courierId == s.orders[j].courierId &&
          (j != j0 ==> r.orders[j] == s.orders[j]))
    && r.orders[j0].status == st
    && (forall k :: 0 <= k < |s.couriers| ==>
          r.couriers[k] == if IsClosed(st) && Truthy(s.orders[j0].courierId) &&
                              s.couriers[k].id == s.orders[j0].courierId.value
                           then Release(s.couriers[k]) else s.couriers[k])
  }

  lemma StatusStepKeepsIds(s: Store, r: Store, j0: int, st: OrderStatus)
    requires Inv(s) && StatusStep(s, r, j0, st)
    ensures OrderIdsDistinct(r.orders) && CourierIdsDistinct(r.couriers)
    ensures forall k :: 0 <= k < |r.couriers| ==> r.couriers[k].id != ""
    ensures forall j :: 0 <= j < |r.orders| ==> r.orders[j].id != ""
  {
    forall a, b | 0 <= a < |r.orders| && 0 <= b < |r.orders| && r.orders[a].id == r.orders[b].id
      ensures a == b
    {
      OrderIndexUnique(s, a, b);
    }
    forall a, b | 0 <= a < |r.couriers| && 0 <= b < |r.couriers| && r.couriers[a].id == r.couriers[b].id
      ensures a == b
    {
      CourierIndexUnique(s, a, b);
    }
  }

  lemma StatusStepKeepsCouriersBound(s: Store, r: Store, j0: int, st: OrderStatus)
    requires Inv(s) && StatusStep(s, r, j0, st) && IsActive(s.orders[j0])
    ensures forall k :: 0 <= k < |r.couriers| ==> CourierBound(r, r.couriers[k])
  {
    forall k | 0 <= k < |r.couriers| ensures CourierBound(r, r.couriers[k])
    {
      StatusStepKeepsCourierBound(s, r, j0, st, k);
    }
  }

  lemma StatusStepKeepsCourierBound(s: Store, r: Store, j0: int, st: OrderStatus, k: int)
    requires Inv(s) && StatusStep(s, r, j0, st) && IsActive(s.orders[j0]) && 0 <= k < |s.couriers|
    ensures CourierBound(r, r.couriers[k])
  {
    var c, o0 := s.couriers[k], s.orders[j0];
    assert CourierBound(s, c);
    if !(IsClosed(st) && Truthy(o0.courierId) && c.id == o0.courierId.value) && c.currentOrderId.Some? {
      assert r.couriers[k] == c;
      var j :| 0 <= j < |s.orders| && s.orders[j].id == c.currentOrderId.value &&
               s.orders[j].courierId == Some(c.id) && IsActive(s.orders[j]);
      assert j == j0 ==> !IsClosed(st);
      assert r.orders[j].id == c.currentOrderId.value && r.orders[j].courierId == Some(c.id) &&
             IsActive(r.orders[j]);
    }
  }

  lemma StatusStepKeepsOrdersBound(s: Store, r: Store, j0: int, st: OrderStatus)
    requires Inv(s) && StatusStep(s, r, j0, st) && IsActive(s.orders[j0])
    ensures forall j :: 0 <= j < |r.orders| ==> OrderBound(r, r.orders[j])
  {
    var o0 := s.orders[j0];
    forall j | 0 <= j < |r.orders| ensures OrderBound(r, r.orders[j])
    {
      var o := r.orders[j];
      if IsActive(o) && o.courierId.Some? {
        assert IsActive(s.orders[j]);
        assert OrderBound(s, s.orders[j]);
        var k :| 0 <= k < |s.couriers| && s.couriers[k].id == o.courierId.value &&
                 s.couriers[k].currentOrderId == Some(o.id);
        if IsClosed(st) && Truthy(o0.courierId) && s.couriers[k].id == o0.courierId.value {
          NamedCourierHolds(s, j0, k);
          OrderIndexUnique(s, j, j0);
        }
        assert r.couriers[k] == s.couriers[k];
      }
    }
  }

  /** The shape of a status change on the one order with the id. */
  lemma UpdateStatusIsStatusStep(s: Store, id: Id, st: OrderStatus, now: Time, j0: int)
    requires OrderIdsDistinct(s.orders)
    requires 0 <= j0 < |s.orders| && s.orders[j0].id == id
    ensures StatusStep(s, UpdateOrder(s, id, StatusPatch(st), now), j0, st)
  {
    var r := UpdateOrder(s, id, StatusPatch(st), now);
    forall j | 0 <= j < |s.orders|
      ensures r.orders[j].id == s.orders[j].id && r.orders[j].courierId == s.orders[j].courierId
      ensures j != j0 ==> r.orders[j] == s.orders[j]
    {
      StatusPatchTouchesOnlyStatus(s.orders[j], st);
      if s.orders[j].id == id { OrderIndexUnique(s, j, j0); }
    }
    StatusPatchTouchesOnlyStatus(s.orders[j0], st);
    if IsClosed(st) {
      if Truthy(s.orders[j0].courierId) {
        LastHolderIsTheOrder(s, j0, j0);
      } else {
        forall m ensures !LastHolderAt(s.orders, id, m) { LastHolderIsTheOrder(s, j0, m); }
      }
    }
  }

  lemma StatusStepKeepsInv(s: Store, r: Store, j0: int, st: OrderStatus)
    requires Inv(s) && StatusStep(s, r, j0, st) && IsActive(s.orders[j0])
    ensures Inv(r)
  {
    StatusStepKeepsIds(s, r, j0, st);
    StatusStepKeepsCouriersBound(s, r, j0, st);
    StatusStepKeepsOrdersBound(s, r, j0, st);
  }

  /** Changing the status of an order shown as active keeps the invariant;
      closing it releases its courier. */
  lemma UpdateStatusPreservesInv(s: Store, id: Id, st: OrderStatus, now: Time)
    requires Inv(s)
    requires ShownAsActive(s, id)
    ensures Inv(UpdateOrder(s, id, StatusPatch(st), now))
  {
    var j0 :| 0 <= j0 < |s.orders| && s.orders[j0].id == id && IsActive(s.orders[j0]);
    UpdateStatusIsStatusStep(s, id, st, now, j0);
    StatusStepKeepsInv(s, UpdateOrder(s, id, StatusPatch(st), now), j0, st);
  }

  /** `r` is `s` after the order at `j0` was removed and the courier it
      names released. */
  predicate DeleteStep(s: Store, r: Store, j0: int)
  {
    && 0 <= j0 < |s.orders| && |r.couriers| == |s.couriers|
    && OrderIdsDistinct(r.orders)
    && (forall m :: 0 <= m < |r.orders| ==> r.orders[m] in s.orders && r.orders[m].id != s.orders[j0].id)
    && (forall j :: 0 <= j < |s.orders| && s.orders[j].id != s.orders[j0].id ==> s.orders[j] in r.orders)
    && (forall k :: 0 <= k < |s.couriers| ==>
          r.couriers[k] == if Truthy(s.orders[j0].courierId) && s.couriers[k].id == s.orders[j0].courierId.value
                           then Release(s.couriers[k]) else s.couriers[k])
  }

  lemma DeleteOrderIsDeleteStep(s: Store, id: Id, j0: int)
    requires OrderIdsDistinct(s.orders)
    requires 0 <= j0 < |s.orders| && s.orders[j0].id == id
    ensures DeleteStep(s, DeleteOrder(s, id), j0)
  {
    OrderIsFirst(s, j0);
    FilterKeepsDistinct(s.orders, o => !OrderIdIs(id, o), OrderKey);
  }

  lemma DeleteStepKeepsCouriersBound(s: Store, r: Store, j0: int)
    requires Inv(s) && DeleteStep(s, r, j0)
    ensures forall k :: 0 <= k < |r.couriers| ==> CourierBound(r, r.couriers[k])
  {
    forall k | 0 <= k < |r.couriers| ensures CourierBound(r, r.couriers[k])
    {
      DeleteStepKeepsCourierBound(s, r, j0, k);
    }
  }

  lemma DeleteStepKeepsCourierBound(s: Store, r: Store, j0: int, k: int)
    requires Inv(s) && DeleteStep(s, r, j0) && 0 <= k < |s.couriers|
    ensures CourierBound(r, r.couriers[k])
  {
    var c, o0 := s.couriers[k], s.orders[j0];
    assert CourierBound(s, c);
    if !(Truthy(o0.courierId) && c.id == o0.courierId.value) && c.currentOrderId.Some? {
      assert r.couriers[k] == c;
      var j :| 0 <= j < |s.orders| && s.orders[j].id == c.currentOrderId.value &&
               s.orders[j].courierId == Some(c.id) && IsActive(s.orders[j]);
      assert s.orders[j].id != o0.id by {
        if s.orders[j].id == o0.id { OrderIndexUnique(s, j, j0); }
      }
      var m :| 0 <= m < |r.orders| && r.orders[m] == s.orders[j];
    }
  }

  lemma DeleteStepKeepsOrdersBound(s: Store, r: Store, j0: int)
    requires Inv(s) && DeleteStep(s, r, j0) && IsActive(s.orders[j0])
    ensures forall m :: 0 <= m < |r.orders| ==> OrderBound(r, r.orders[m])
  {
    var o0 := s.orders[j0];
    forall m | 0 <= m < |r.orders| ensures OrderBound(r, r.orders[m])
    {
      var o := r.orders[m];
      assert o in s.orders && o.id != o0.id;
      var j :| 0 <= j < |s.orders| && s.orders[j] == o;
      if IsActive(o) && o.courierId.Some? {
        assert OrderBound(s, s.orders[j]);
        var k :| 0 <= k < |s.couriers| && s.couriers[k].id == o.courierId.value &&
                 s.couriers[k].currentOrderId == Some(o.id);
        if Truthy(o0.courierId) && s.couriers[k].id == o0.courierId.value {
          NamedCourierHolds(s, j0, k);
          assert false;
        }
        assert r.couriers[k] == s.couriers[k];
        assert r.couriers[k].id == o.courierId.value && r.couriers[k].currentOrderId == Some(o.id);
      }
    }
  }

  lemma DeleteStepKeepsInv(s: Store, r: Store, j0: int)
    requires Inv(s) && DeleteStep(s, r, j0) && IsActive(s.orders[j0])
    ensures Inv(r)
  {
    assert CourierIdsDistinct(r.couriers) by {
      forall a, b | 0 <= a < |r.couriers| && 0 <= b < |r.couriers| && r.couriers[a].id == r.couriers[b].id
        ensures a == b
      {
        CourierIndexUnique(s, a, b);
      }
    }
    DeleteStepKeepsCouriersBound(s, r, j0);
    DeleteStepKeepsOrdersBound(s, r, j0);
  }

  /** Deleting an order shown as active keeps the invariant. */
  lemma DeleteOrderPreservesInv(s: Store, id: Id)
    requires Inv(s)
    requires ShownAsActive(s, id)
    ensures Inv(DeleteOrder(s, id))
  {
    var j0 :| 0 <= j0 < |s.orders| && s.orders[j0].id == id && IsActive(s.orders[j0]);
    DeleteOrderIsDeleteStep(s, id, j0);
    DeleteStepKeepsInv(s, DeleteOrder(s, id), j0);
  }

  /** `r` is `s` after the courier at `k0` was put on the order at `i0`:
      the order now names it and is active, the courier holds the order,
      and the courier the order named before is released. */
  predicate AssignStep(s: Store, r: Store, i0: int, k0: int)
  {
    && 0 <= i0 < |s.orders| && 0 <= k0 < |s.couriers|
    && |r.orders| == |s.orders| && |r.couriers| == |s.couriers|
    && (forall j :: 0 <= j < |s.orders| ==> r.orders[j].id == s.orders[j].id && (j != i0 ==> r.orders[j] == s.orders[j]))
    && r.orders[i0].courierId == Some(s.couriers[k0].id) && IsActive(r.orders[i0])
    && (forall k :: 0 <= k < |s.couriers| ==>
          r.couriers[k] == if s.couriers[k].id == s.couriers[k0].id then Bind(s.couriers[k], s.orders[i0].id)
                           else if Truthy(s.orders[i0].courierId) && s.couriers[k].id == s.orders[i0].courierId.value
                           then Release(s.couriers[k])
                           else s.couriers[k])
  }

  lemma AssignIsAssignStep(s: Store, i0: int, k0: int, now: Time)
    requires OrderIdsDistinct(s.orders) && CourierIdsDistinct(s.couriers)
    requires 0 <= i0 < |s.orders| && 0 <= k0 < |s.couriers|
    ensures AssignStep(s, AssignCourier(s, s.orders[i0].id, s.couriers[k0].id, now), i0, k0)
  {
    OrderIsFirst(s, i0);
    CourierIsFirst(s, k0);
    AssignCourierAt(s, s.orders[i0].id, s.couriers[k0].id, now, i0, k0);
    AssignShapeIsStep(s, AssignCourier(s, s.orders[i0].id, s.couriers[k0].id, now), i0, k0, now);
  }

  /** The pointwise description of an assignment, read as a step. */
  lemma AssignShapeIsStep(s: Store, r: Store, i0: int, k0: int, now: Time)
    requires OrderIdsDistinct(s.orders) && 0 <= i0 < |s.orders| && 0 <= k0 < |s.couriers|
    requires |r.orders| == |s.orders| && |r.couriers| == |s.couriers|
    requires forall i :: 0 <= i < |s.orders| ==>
               r.orders[i] == if s.orders[i].id == s.orders[i0].id
                              then s.orders[i].(courierId := Some(s.couriers[k0].id), courierName := Some(s.couriers[k0].name),
                                                status := Delivering, updatedAt := now)
                              else s.orders[i]
    requires forall i :: 0 <= i < |s.couriers| ==>
               r.couriers[i] == if s.couriers[i].id == s.couriers[k0].id then Bind(s.couriers[i], s.orders[i0].id)
                                else if Truthy(s.orders[i0].courierId) && s.couriers[i].id == s.orders[i0].courierId.value
                                then Release(s.couriers[i])
                                else s.couriers[i]
    ensures AssignStep(s, r, i0, k0)
  {
    forall j | 0 <= j < |s.orders| && j != i0 ensures r.orders[j] == s.orders[j]
    {
      if s.orders[j].id == s.orders[i0].id { OrderIndexUnique(s, j, i0); }
    }
  }

  lemma AssignStepKeepsIds(s: Store, r: Store, i0: int, k0: int)
    requires Inv(s) && AssignStep(s, r, i0, k0)
    ensures OrderIdsDistinct(r.orders) && CourierIdsDistinct(r.couriers)
    ensures forall k :: 0 <= k < |r.couriers| ==> r.couriers[k].id != ""
    ensures forall j :: 0 <= j < |r.orders| ==> r.orders[j].id != ""
  {
    forall a, b | 0 <= a < |r.orders| && 0 <= b < |r.orders| && r.orders[a].id == r.orders[b].id
      ensures a == b
    {
      OrderIndexUnique(s, a, b);
    }
    forall a, b | 0 <= a < |r.couriers| && 0 <= b < |r.couriers| && r.couriers[a].id == r.couriers[b].id
      ensures a == b
    {
      CourierIndexUnique(s, a, b);
    }
  }

  lemma AssignStepKeepsCouriersBound(s: Store, r: Store, i0: int, k0: int)
    requires Inv(s) && AssignStep(s, r, i0, k0)
    ensures forall k :: 0 <= k < |r.couriers| ==> CourierBound(r, r.couriers[k])
  {
    forall k | 0 <= k < |r.couriers| ensures CourierBound(r, r.couriers[k])
    {
      AssignStepKeepsCourierBound(s, r, i0, k0, k);
    }
  }

  lemma AssignStepKeepsCourierBound(s: Store, r: Store, i0: int, k0: int, k: int)
    requires Inv(s) && AssignStep(s, r, i0, k0) && 0 <= k < |s.couriers|
    ensures CourierBound(r, r.couriers[k])
  {
    var c, o0 := s.couriers[k], s.orders[i0];
    if c.id == s.couriers[k0].id {
      assert r.couriers[k] == Bind(c, o0.id);
      assert r.orders[i0].id == o0.id && r.orders[i0].courierId == Some(c.id);
    } else if !(Truthy(o0.courierId) && c.id == o0.courierId.value) {
      assert r.couriers[k] == c;
      AssignStepKeepsUntouchedBound(s, r, i0, k0, k);
    }
  }

  /** A courier the assignment leaves alone keeps its order. */
  lemma AssignStepKeepsUntouchedBound(s: Store, r: Store, i0: int, k0: int, k: int)
    requires Inv(s) && AssignStep(s, r, i0, k0) && 0 <= k < |s.couriers|
    requires s.couriers[k].id != s.couriers[k0].id && r.couriers[k] == s.couriers[k]
    ensures CourierBound(r, s.couriers[k])
  {
    var c := s.couriers[k];
    assert CourierBound(s, c);
    if c.currentOrderId.Some? {
      var j :| 0 <= j < |s.orders| && s.orders[j].id == c.currentOrderId.value &&
               s.orders[j].courierId == Some(c.id) && IsActive(s.orders[j]);
      assert j != i0;
      assert r.orders[j] == s.orders[j];
    }
  }

  lemma AssignStepKeepsOrdersBound(s: Store, r: Store, i0: int, k0: int)
    requires Inv(s) && AssignStep(s, r, i0, k0)
    requires IsActive(s.orders[i0])
    requires s.couriers[k0].status == Free || s.orders[i0].courierId == Some(s.couriers[k0].id)
    ensures forall j :: 0 <= j < |r.orders| ==> OrderBound(r, r.orders[j])
  {
    var o0 := s.orders[i0];
    assert r.couriers[k0].id == s.couriers[k0].id && r.couriers[k0].currentOrderId == Some(o0.id);
    forall j | 0 <= j < |r.orders| ensures OrderBound(r, r.orders[j])
    {
      if j != i0 {
        var o := s.orders[j];
        if IsActive(o) && o.courierId.Some? {
          assert OrderBound(s, o);
          var k :| 0 <= k < |s.couriers| && s.couriers[k].id == o.courierId.value &&
                   s.couriers[k].currentOrderId == Some(o.id);
          if s.couriers[k].id == s.couriers[k0].id {
            CourierIndexUnique(s, k, k0);
            assert CourierBound(s, s.couriers[k0]);
            if s.couriers[k0].status != Free {
              NamedCourierHolds(s, i0, k0);
              OrderIndexUnique(s, j, i0);
            }
            assert false;
          }
          if Truthy(o0.courierId) && s.couriers[k].id == o0.courierId.value {
            NamedCourierHolds(s, i0, k);
            OrderIndexUnique(s, j, i0);
            assert false;
          }
          assert r.couriers[k] == s.couriers[k];
          assert r.orders[j] == o;
        }
      }
    }
  }

  /** Assigning a courier the picker offers to an order shown as active
      keeps the invariant: the previous courier is released, the new one
      holds the order, and the order names it. */
  lemma AssignPreservesInv(s: Store, orderId: Id, courierId: Id, now: Time)
    requires Inv(s)
    requires CanAssign(s, orderId, courierId)
    ensures Inv(AssignCourier(s, orderId, courierId, now))
  {
    var i0, k0 :| 0 <= i0 < |s.orders| && 0 <= k0 < |s.couriers| &&
      s.orders[i0].id == orderId && IsActive(s.orders[i0]) &&
      s.couriers[k0].id == courierId && s.couriers[k0] in CourierCandidates(s.couriers, s.orders[i0]);
    AssignIsAssignStep(s, i0, k0, now);
    AssignStepKeepsInv(s, AssignCourier(s, orderId, courierId, now), i0, k0);
  }

  lemma AssignStepKeepsInv(s: Store, r: Store, i0: int, k0: int)
    requires Inv(s) && AssignStep(s, r, i0, k0)
    requires IsActive(s.orders[i0])
    requires s.couriers[k0].status == Free || s.orders[i0].courierId == Some(s.couriers[k0].id)
    ensures Inv(r)
  {
    AssignStepKeepsIds(s, r, i0, k0);
    AssignStepKeepsCouriersBound(s, r, i0, k0);
    AssignStepKeepsOrdersBound(s, r, i0, k0);
  }

  /* ------------------------------------------------ release and reassignment */

  /** Closing an order frees the courier it names (free, no order), keeps
      the order's courier reference as history, and leaves every other
      courier alone. */
  lemma CloseReleasesCourier(s: Store, id: Id, st: OrderStatus, now: Time, j0: int, k: int)
    requires OrderIdsDistinct(s.orders)
    requires 0 <= j0 < |s.orders| && s.orders[j0].id == id && 0 <= k < |s.couriers|
    requires IsClosed(st) && s.orders[j0].courierId == Some(s.couriers[k].id) && s.couriers[k].id != ""
    ensures var r := UpdateOrder(s, id, StatusPatch(st), now);
      && r.couriers[k].status == Free && r.couriers[k].currentOrderId.None?
      && r.orders[j0].courierId == s.orders[j0].courierId && r.orders[j0].status == st
      && (forall m :: 0 <= m < |s.couriers| && s.couriers[m].id != s.couriers[k].id ==> r.couriers[m] == s.couriers[m])
  {
    UpdateStatusIsStatusStep(s, id, st, now, j0);
  }

  /** Completing (or cancelling) an order twice leaves the couriers as the
      first call left them: a released courier stays released. */
  lemma ReleaseIsIdempotent(s: Store, id: Id, st: OrderStatus, t1: Time, t2: Time)
    requires IsClosed(st)
    ensures var s1 := UpdateOrder(s, id, StatusPatch(st), t1);
            UpdateOrder(s1, id, StatusPatch(st), t2).couriers == s1.couriers
  {
    var s1 := UpdateOrder(s, id, StatusPatch(st), t1);
    forall j | 0 <= j < |s.orders|
      ensures s1.orders[j].id == s.orders[j].id && s1.orders[j].courierId == s.orders[j].courierId
    {
      StatusPatchTouchesOnlyStatus(s.orders[j], st);
    }
    forall k ensures LastHolderAt(s1.orders, id, k) == LastHolderAt(s.orders, id, k)
    {
    }
    if k :| LastHolderAt(s.orders, id, k) {
      ReleaseCourierIdempotent(s.couriers, s.orders[k].courierId);
    }
  }

  lemma ReleaseCourierIdempotent(cs: seq<Courier>, cid: Option<Id>)
    ensures ReleaseCourier(ReleaseCourier(cs, cid), cid) == ReleaseCourier(cs, cid)
  {
  }

  /** After an assignment to the order at `i0`, only the assigned courier
      holds that order. */
  lemma AssignStepSoleHolder(s: Store, r: Store, i0: int, k0: int)
    requires Inv(s) && AssignStep(s, r, i0, k0)
    ensures forall m :: 0 <= m < |r.couriers| && r.couriers[m].currentOrderId == Some(s.orders[i0].id) ==> m == k0
  {
    forall m | 0 <= m < |r.couriers| && r.couriers[m].currentOrderId == Some(s.orders[i0].id) ensures m == k0
    {
      if s.couriers[m].id != s.couriers[k0].id {
        assert r.couriers[m] == s.couriers[m];
        HeldOrderNames(s, m, i0);
        assert false;
      }
      CourierIndexUnique(s, m, k0);
    }
  }

  /** A second assignment of the same courier to another order moves its
      hold there; no courier is left holding the first order. */
  lemma SecondAssignMovesHold(s1: Store, s2: Store, i2: int, k: int, o1: Id)
    requires AssignStep(s1, s2, i2, k)
    requires s1.orders[i2].id != o1
    requires forall m :: 0 <= m < |s1.couriers| && s1.couriers[m].currentOrderId == Some(o1) ==> m == k
    ensures s2.couriers[k].status == Busy && s2.couriers[k].currentOrderId == Some(s1.orders[i2].id)
    ensures forall m :: 0 <= m < |s2.couriers| ==> s2.couriers[m].currentOrderId != Some(o1)
  {
    forall m | 0 <= m < |s2.couriers| ensures s2.couriers[m].currentOrderId != Some(o1)
    {
      if s1.couriers[m].id != s1.couriers[k].id && s1.couriers[m].currentOrderId == Some(o1) {
        assert false;
      }
    }
  }

  /** Two assignment steps of the same courier, first to the order at `i1`
      and then to the order at `i2`. */
  lemma TwoAssignStepsMoveHold(s: Store, s1: Store, s2: Store, i1: int, i2: int, k: int)
    requires Inv(s) && AssignStep(s, s1, i1, k) && AssignStep(s1, s2, i2, k) && i1 != i2
    ensures s2.couriers[k].status == Busy && s2.couriers[k].currentOrderId == Some(s.orders[i2].id)
    ensures forall m :: 0 <= m < |s2.couriers| ==> s2.couriers[m].currentOrderId != Some(s.orders[i1].id)
  {
    AssignStepSoleHolder(s, s1, i1, k);
    assert s.orders[i1].id != s.orders[i2].id by {
      if s.orders[i1].id == s.orders[i2].id { OrderIndexUnique(s, i1, i2); }
    }
    SecondAssignMovesHold(s1, s2, i2, k, s.orders[i1].id);
  }

  /** Reassigning a courier from one order to another never leaves it, or
      anyone, holding the first order: after assigning A to `o1` and then
      to `o2`, A holds `o2` and no courier holds `o1`. */
  lemma ReassignNeverDoubleBooks(s: Store, i1: int, i2: int, k: int, t1: Time, t2: Time)
    requires Inv(s)
    requires 0 <= i1 < |s.orders| && 0 <= i2 < |s.orders| && i1 != i2 && 0 <= k < |s.couriers|
    ensures var s1 := AssignCourier(s, s.orders[i1].id, s.couriers[k].id, t1);
            var s2 := AssignCourier(s1, s.orders[i2].id, s.couriers[k].id, t2);
            && s2.couriers[k].status == Busy && s2.couriers[k].currentOrderId == Some(s.orders[i2].id)
            && forall m :: 0 <= m < |s2.couriers| ==> s2.couriers[m].currentOrderId != Some(s.orders[i1].id)
  {
    var s1 := AssignCourier(s, s.orders[i1].id, s.couriers[k].id, t1);
    AssignIsAssignStep(s, i1, k, t1);
    AssignStepKeepsIds(s, s1, i1, k);
    AssignIsAssignStep(s1, i2, k, t2);
    TwoAssignStepsMoveHold(s, s1, AssignCourier(s1, s.orders[i2].id, s.couriers[k].id, t2), i1, i2, k);
  }

  /* ---------------------------------------------------------------- findings */

  /** The picker offers courier 1 (free) for order 1 of the initial store. */
  lemma SeedPickerOffersFreeCourier(ps: seq<Pizza>)
    ensures CanAssign(SeedStoreWith(ps), "1", "1")
  {
    var s := SeedStoreWith(ps);
    assert s.orders[0].id == "1" && IsActive(s.orders[0]) && s.couriers[0].id == "1" && s.couriers[0].status == Free;
    CandidateIffFreeOrCurrent(s.couriers, s.orders[0], 0);
  }

  /** With distinct ids, the picker of an order never offers a busy
      courier the order does not already name. */
  lemma PickerHidesBusyCourier(s: Store, i0: int, k0: int)
    requires OrderIdsDistinct(s.orders) && CourierIdsDistinct(s.couriers)
    requires 0 <= i0 < |s.orders| && 0 <= k0 < |s.couriers|
    requires s.couriers[k0].status == Busy && s.orders[i0].courierId != Some(s.couriers[k0].id)
    ensures !CanAssign(s, s.orders[i0].id, s.couriers[k0].id)
  {
    forall i, k | 0 <= i < |s.orders| && 0 <= k < |s.couriers| &&
                  s.orders[i].id == s.orders[i0].id && s.couriers[k].id == s.couriers[k0].id
      ensures s.couriers[k] !in CourierCandidates(s.couriers, s.orders[i])
    {
      OrderIndexUnique(s, i, i0);
      CourierIndexUnique(s, k, k0);
      CandidateIffFreeOrCurrent(s.couriers, s.orders[i], k);
    }
  }

  /** ... and never offers courier 3 (busy on order 1) for order 2. */
  lemma SeedPickerHidesBusyCourier(ps: seq<Pizza>)
    ensures !CanAssign(SeedStoreWith(ps), "2", "3")
  {
    var s := SeedStoreWith(ps);
    SeedSatisfiesInv(ps);
    assert s.orders[1].id == "2" && s.couriers[2].id == "3";
    PickerHidesBusyCourier(s, 1, 2);
  }

  /** A courier holding an order that names someone else breaks the
      invariant. */
  lemma HoldingForeignOrderBreaksInv(w: Store, k: int, oid: Id)
    requires 0 <= k < |w.couriers| && w.couriers[k].currentOrderId == Some(oid)
    requires forall j :: 0 <= j < |w.orders| && w.orders[j].id == oid ==> w.orders[j].courierId != Some(w.couriers[k].id)
    ensures !Inv(w)
  {
    assert !CourierBound(w, w.couriers[k]);
  }

  /** handleAssignCourier as written loses the release: moving order 1 of
      the initial store from courier 3 to the free courier 1 (a choice the
      picker offers) leaves courier 3 busy on order 1, which now names
      courier 1, so the invariant breaks. */
  lemma AssignAsWrittenLosesRelease(ps: seq<Pizza>, now: Time)
    ensures CanAssign(SeedStoreWith(ps), "1", "1")
    ensures var w := AssignCourierAsWritten(SeedStoreWith(ps), "1", "1", now);
            w.couriers[2].status == Busy && w.couriers[2].currentOrderId == Some("1") &&
            w.orders[0].courierId == Some("1") && !Inv(w)
  {
    var s := SeedStoreWith(ps);
    SeedPickerOffersFreeCourier(ps);
    SeedSatisfiesInv(ps);
    AssignIsAssignStep(s, 0, 0, now);
    var w := AssignCourierAsWritten(s, "1", "1", now);
    assert s.orders[0].id == "1" && s.couriers[0].id == "1";
    assert HasOrder(s, "1") && HasCourier(s, "1");
    assert w.couriers[2] == s.couriers[2];
    forall j | 0 <= j < |w.orders| && w.orders[j].id == "1" ensures w.orders[j].courierId != Some("3")
    {
      assert s.orders[j].id == "1";
      OrderIndexUnique(s, j, 0);
    }
    HoldingForeignOrderBreaksInv(w, 2, "1");
  }

  /** The intended transition on the same choice frees courier 3 and keeps
      the invariant. */
  lemma AssignReleasesPreviousCourier(ps: seq<Pizza>, now: Time)
    ensures var r := AssignCourier(SeedStoreWith(ps), "1", "1", now);
            r.couriers[2].status == Free && r.couriers[2].currentOrderId.None? &&
            r.couriers[0].currentOrderId == Some("1") && Inv(r)
  {
    var s := SeedStoreWith(ps);
    SeedPickerOffersFreeCourier(ps);
    SeedSatisfiesInv(ps);
    AssignIsAssignStep(s, 0, 0, now);
    AssignPreservesInv(s, "1", "1", now);
  }

  /** An active order naming a courier that does not hold it breaks the
      invariant. */
  lemma NamingUnheldCourierBreaksInv(w: Store, j: int, cid: Id)
    requires 0 <= j < |w.orders| && IsActive(w.orders[j]) && w.orders[j].courierId == Some(cid)
    requires forall k :: 0 <= k < |w.couriers| && w.couriers[k].id == cid ==> w.couriers[k].currentOrderId != Some(w.orders[j].id)
    ensures !Inv(w)
  {
    assert !OrderBound(w, w.orders[j]);
  }

  /** The store does not check that the courier is free: giving a courier
      that holds another active order to a second order leaves the first
      order naming a courier that no longer holds it. */
  lemma AssigningBusyCourierBreaksInv(s: Store, r: Store, i0: int, k0: int, j: int)
    requires Inv(s) && AssignStep(s, r, i0, k0)
    requires 0 <= j < |s.orders| && j != i0
    requires IsActive(s.orders[j]) && s.orders[j].courierId == Some(s.couriers[k0].id)
    ensures !Inv(r)
  {
    var cid := s.couriers[k0].id;
    assert r.orders[j] == s.orders[j];
    assert s.orders[i0].id != s.orders[j].id by {
      if s.orders[i0].id == s.orders[j].id { OrderIndexUnique(s, i0, j); }
    }
    forall q | 0 <= q < |r.couriers| && r.couriers[q].id == cid ensures r.couriers[q].currentOrderId != Some(s.orders[j].id)
    {
      assert r.couriers[q] == Bind(s.couriers[q], s.orders[i0].id);
    }
    NamingUnheldCourierBreaksInv(r, j, cid);
  }

  /** On the initial store: courier 3, busy on order 1, given to order 2.
      The picker never offers this choice. */
  lemma UnguardedAssignBreaksInv(ps: seq<Pizza>, now: Time)
    ensures !CanAssign(SeedStoreWith(ps), "2", "3")
    ensures var r := AssignCourier(SeedStoreWith(ps), "2", "3", now);
            r.couriers[2].currentOrderId == Some("2") && r.orders[0].courierId == Some("3") &&
            IsActive(r.orders[0]) && !Inv(r)
  {
    var s := SeedStoreWith(ps);
    SeedPickerHidesBusyCourier(ps);
    SeedSatisfiesInv(ps);
    assert s.orders[1].id == "2" && s.couriers[2].id == "3";
    AssignIsAssignStep(s, 1, 2, now);
    AssigningBusyCourierBreaksInv(s, AssignCourier(s, "2", "3", now), 1, 2, 0);
  }

  /** Release is unconditional: when a finished order still names a
      courier that now holds another active order, deleting or re-closing
      the finished order frees that courier under the active order. */
  lemma ReleaseOfFinishedOrderBreaksInv(s: Store, j0: int, j1: int, k: int, st: OrderStatus, now: Time)
    requires Inv(s)
    requires 0 <= j0 < |s.orders| && 0 <= j1 < |s.orders| && j0 != j1 && 0 <= k < |s.couriers|
    requires !IsActive(s.orders[j0]) && s.orders[j0].courierId == Some(s.couriers[k].id)
    requires IsActive(s.orders[j1]) && s.orders[j1].courierId == Some(s.couriers[k].id)
    requires IsClosed(st)
    ensures !ShownAsActive(s, s.orders[j0].id)
    ensures !Inv(DeleteOrder(s, s.orders[j0].id))
    ensures !Inv(UpdateOrder(s, s.orders[j0].id, StatusPatch(st), now))
  {
    forall j | 0 <= j < |s.orders| && s.orders[j].id == s.orders[j0].id ensures !IsActive(s.orders[j])
    {
      OrderIndexUnique(s, j, j0);
    }
    assert s.orders[j1].id != s.orders[j0].id by {
      if s.orders[j1].id == s.orders[j0].id { OrderIndexUnique(s, j1, j0); }
    }
    DeleteOrderIsDeleteStep(s, s.orders[j0].id, j0);
    DeleteStepOrphansOrder(s, DeleteOrder(s, s.orders[j0].id), j0, j1, k);
    UpdateStatusIsStatusStep(s, s.orders[j0].id, st, now, j0);
    StatusStepOrphansOrder(s, UpdateOrder(s, s.orders[j0].id, StatusPatch(st), now), j0, j1, k, st);
  }

  /** Deleting the finished order releases the courier held by the active
      order `j1`, which still names it. */
  lemma DeleteStepOrphansOrder(s: Store, d: Store, j0: int, j1: int, k: int)
    requires DeleteStep(s, d, j0) && 0 <= j1 < |s.orders| && 0 <= k < |s.couriers|
    requires forall q :: 0 <= q < |s.couriers| ==> s.couriers[q].id != ""
    requires s.orders[j0].courierId == Some(s.couriers[k].id)
    requires IsActive(s.orders[j1]) && s.orders[j1].courierId == Some(s.couriers[k].id)
    requires s.orders[j1].id != s.orders[j0].id
    ensures !Inv(d)
  {
    var cid := s.couriers[k].id;
    var m :| 0 <= m < |d.orders| && d.orders[m] == s.orders[j1];
    forall q | 0 <= q < |d.couriers| && d.couriers[q].id == cid ensures d.couriers[q].currentOrderId != Some(s.orders[j1].id)
    {
      assert d.couriers[q] == Release(s.couriers[q]);
    }
    NamingUnheldCourierBreaksInv(d, m, cid);
  }

  /** Closing the finished order again releases the courier held by the
      active order `j1`, which still names it. */
  lemma StatusStepOrphansOrder(s: Store, c: Store, j0: int, j1: int, k: int, st: OrderStatus)
    requires StatusStep(s, c, j0, st) && IsClosed(st) && 0 <= j1 < |s.orders| && j1 != j0 && 0 <= k < |s.couriers|
    requires forall q :: 0 <= q < |s.couriers| ==> s.couriers[q].id != ""
    requires s.orders[j0].courierId == Some(s.couriers[k].id)
    requires IsActive(s.orders[j1]) && s.orders[j1].courierId == Some(s.couriers[k].id)
    ensures !Inv(c)
  {
    var cid := s.couriers[k].id;
    assert c.orders[j1] == s.orders[j1];
    forall q | 0 <= q < |c.couriers| && c.couriers[q].id == cid ensures c.couriers[q].currentOrderId != Some(s.orders[j1].id)
    {
      assert c.couriers[q] == Release(s.couriers[q]);
    }
    NamingUnheldCourierBreaksInv(c, j1, cid);
  }

  /** Completing order 1 of the initial store frees courier 3, and order 1
      keeps naming it. */
  lemma SeedCompletionFreesCourier(ps: seq<Pizza>, t1: Time)
    ensures var s1 := UpdateOrder(SeedStoreWith(ps), "1", StatusPatch(Completed), t1);
            && Inv(s1) && |s1.orders| == 2 && |s1.couriers| == 3
            && s1.orders[0].status == Completed && s1.orders[0].courierId == Some("3")
            && s1.orders[1].id == "2" && IsActive(s1.orders[1])
            && s1.couriers[2].id == "3" && s1.couriers[2].status == Free && s1.couriers[2].currentOrderId.None?
  {
    var s := SeedStoreWith(ps);
    SeedSatisfiesInv(ps);
    assert ShownAsActive(s, "1") by { assert s.orders[0].id == "1"; }
    var s1 := UpdateOrder(s, "1", StatusPatch(Completed), t1);
    UpdateStatusPreservesInv(s, "1", Completed, t1);
    UpdateStatusIsStatusStep(s, "1", Completed, t1, 0);
    StatusStepAfterSeedCompletion(ps, s, s1);
  }

  /** The facts of a completion of order 1 of the initial store, read off
      the shape of the step. */
  lemma StatusStepAfterSeedCompletion(ps: seq<Pizza>, s: Store, s1: Store)
    requires s == SeedStoreWith(ps) && StatusStep(s, s1, 0, Completed)
    ensures |s1.orders| == 2 && |s1.couriers| == 3
    ensures s1.orders[0].status == Completed && s1.orders[0].courierId == Some("3")
    ensures s1.orders[1].id == "2" && IsActive(s1.orders[1])
    ensures s1.couriers[2].id == "3" && s1.couriers[2].status == Free && s1.couriers[2].currentOrderId.None?
  {
    assert s.orders[0].courierId == Some("3") && s.couriers[2].id == "3";
    assert s1.couriers[2] == Release(s.couriers[2]);
    assert s1.orders[1] == s.orders[1];
  }

  /** Giving a free courier to an active order that names nobody leaves an
      earlier finished order naming the same courier, with the invariant
      kept. */
  lemma FreeCourierTakesNewOrder(s: Store, j0: int, j1: int, k: int, now: Time)
    requires Inv(s)
    requires 0 <= j0 < |s.orders| && 0 <= j1 < |s.orders| && j0 != j1 && 0 <= k < |s.couriers|
    requires s.orders[j0].status == Completed && s.orders[j0].courierId == Some(s.couriers[k].id)
    requires IsActive(s.orders[j1]) && s.couriers[k].status == Free
    ensures var r := AssignCourier(s, s.orders[j1].id, s.couriers[k].id, now);
            && CanAssign(s, s.orders[j1].id, s.couriers[k].id) && Inv(r)
            && |r.orders| == |s.orders| && |r.couriers| == |s.couriers| && r.couriers[k].id == s.couriers[k].id
            && r.orders[j0] == s.orders[j0] && IsActive(r.orders[j1])
            && r.orders[j1].courierId == Some(s.couriers[k].id)
  {
    CandidateIffFreeOrCurrent(s.couriers, s.orders[j1], k);
    AssignIsAssignStep(s, j1, k, now);
    AssignPreservesInv(s, s.orders[j1].id, s.couriers[k].id, now);
  }

  /** Once a completed order's courier is given to another order, the
      completed order is no longer shown as active, yet deleting it or
      closing it again releases the courier under the new order. */
  lemma ReassignedCourierIsReleasedByHistory(s: Store, j0: int, j1: int, k: int, now: Time, st: OrderStatus, t: Time)
    requires Inv(s) && IsClosed(st)
    requires 0 <= j0 < |s.orders| && 0 <= j1 < |s.orders| && j0 != j1 && 0 <= k < |s.couriers|
    requires s.orders[j0].status == Completed && s.orders[j0].courierId == Some(s.couriers[k].id)
    requires IsActive(s.orders[j1]) && s.couriers[k].status == Free
    ensures var r := AssignCourier(s, s.orders[j1].id, s.couriers[k].id, now);
            var id := s.orders[j0].id;
            && CanAssign(s, s.orders[j1].id, s.couriers[k].id) && Inv(r) && !ShownAsActive(r, id)
            && !Inv(DeleteOrder(r, id)) && !Inv(UpdateOrder(r, id, StatusPatch(st), t))
  {
    FreeCourierTakesNewOrder(s, j0, j1, k, now);
    ReleaseOfFinishedOrderBreaksInv(AssignCourier(s, s.orders[j1].id, s.couriers[k].id, now), j0, j1, k, st, t);
  }

  /** Such a state is reachable through guarded steps: complete order 1 of
      the initial store, then give courier 3 to order 2. Order 1 keeps
      naming courier 3 as history, and releasing it again breaks the
      invariant. */
  lemma SeedReachesStaleRelease(ps: seq<Pizza>, t1: Time, t2: Time, t3: Time)
    ensures var s1 := UpdateOrder(SeedStoreWith(ps), "1", StatusPatch(Completed), t1);
            var s2 := AssignCourier(s1, "2", "3", t2);
            && CanAssign(s1, "2", "3") && Inv(s2) && !ShownAsActive(s2, "1")
            && !Inv(DeleteOrder(s2, "1"))
            && !Inv(UpdateOrder(s2, "1", StatusPatch(Cancelled), t3))
  {
    var s1 := UpdateOrder(SeedStoreWith(ps), "1", StatusPatch(Completed), t1);
    SeedCompletionFreesCourier(ps, t1);
    assert s1.orders[0].id == "1";
    ReassignedCourierIsReleasedByHistory(s1, 0, 1, 2, t2, Cancelled, t3);
  }
}
