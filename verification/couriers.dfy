/** The courier screen (src/components/CourierManagement.tsx): the add/edit
    form, its submission to the store, and the free/busy lists. */
module CourierManagement {
  import opened Types
  import opened Collection
  import opened App

  /** The form holds only a name and a phone. */
  datatype CourierForm = CourierForm(name: string, phone: string)

  const EmptyForm := CourierForm("", "")

  /** handleEdit: the form is loaded with the selected courier's name and
      phone. */
  function LoadForEdit(c: Courier): (r: CourierForm)
    ensures r.name == c.name && r.phone == c.phone
  {
    CourierForm(c.name, c.phone)
  }

  /** What an edit sends: `formData` itself, i.e. only name and phone. */
  function EditPatch(f: CourierForm): (r: CourierPatch)
    ensures r.id.None? && r.status.None? && r.currentOrderId.None?
    ensures r.name == Some(f.name) && r.phone == Some(f.phone)
  {
    CourierPatch(None, Some(f.name), Some(f.phone), None, None)
  }

  /** What an addition sends: `{ ...formData, status: 'free' }`. */
  function NewCourierDraft(f: CourierForm): (r: CourierDraft)
    ensures r.status == Free && r.currentOrderId.None?
    ensures r.name == f.name && r.phone == f.phone
  {
    CourierDraft(f.name, f.phone, Free, None)
  }

  /** handleSubmit: update the courier being edited, or add a new one.
      A new courier is free with no order; an edit changes nothing but the
      name and phone of the couriers with the edited id. */
  function SubmitCourierForm(s: Store, editing: Option<Courier>, f: CourierForm, newId: Id): (r: Store)
    ensures r.pizzas == s.pizzas && r.orders == s.orders
    ensures editing.None? ==>
              |r.couriers| == |s.couriers| + 1 && r.couriers[..|s.couriers|] == s.couriers &&
              r.couriers[|s.couriers|] == Courier(newId, f.name, f.phone, Free, None)
    ensures editing.Some? ==>
              |r.couriers| == |s.couriers| &&
              forall i :: 0 <= i < |s.couriers| ==>
                r.couriers[i].id == s.couriers[i].id &&
                r.couriers[i].status == s.couriers[i].status &&
                r.couriers[i].currentOrderId == s.couriers[i].currentOrderId &&
                (s.couriers[i].id != editing.value.id ==> r.couriers[i] == s.couriers[i]) &&
                (s.couriers[i].id == editing.value.id ==> r.couriers[i].name == f.name && r.couriers[i].phone == f.phone)
  {
    match editing
    case Some(c) => UpdateCourier(s, c.id, EditPatch(f))
    case None => AddCourier(s, NewCourierDraft(f), newId)
  }

  /** Opening the edit form on a courier and saving it unchanged leaves the
      store as it was, when courier ids are distinct. */
  lemma EditUnchangedIsIdentity(s: Store, k: nat, newId: Id)
    requires k < |s.couriers|
    requires forall i :: 0 <= i < |s.couriers| && s.couriers[i].id == s.couriers[k].id ==> i == k
    ensures SubmitCourierForm(s, Some(s.couriers[k]), LoadForEdit(s.couriers[k]), newId) == s
  {
    var r := SubmitCourierForm(s, Some(s.couriers[k]), LoadForEdit(s.couriers[k]), newId);
    assert r.couriers == s.couriers;
  }

  predicate IsFree(c: Courier) { c.status == Free }
  predicate IsBusy(c: Courier) { c.status == Busy }

  /** `couriers.filter(c => c.status === 'free')`: every free courier and
      only those. */
  function FreeCouriers(cs: seq<Courier>): (r: seq<Courier>)
    ensures forall i :: 0 <= i < |r| ==> r[i] in cs && r[i].status == Free
    ensures forall i :: 0 <= i < |cs| && cs[i].status == Free ==> cs[i] in r
  {
    Filter(cs, IsFree)
  }

  /** `couriers.filter(c => c.status === 'busy')`: every busy courier and
      only those. */
  function BusyCouriers(cs: seq<Courier>): (r: seq<Courier>)
    ensures forall i :: 0 <= i < |r| ==> r[i] in cs && r[i].status == Busy
    ensures forall i :: 0 <= i < |cs| && cs[i].status == Busy ==> cs[i] in r
  {
    Filter(cs, IsBusy)
  }

  /** The free and busy lists partition the roster: each courier is in
      exactly one, and the two counts add up to the roster size. */
  lemma RosterPartition(cs: seq<Courier>)
    ensures forall i :: 0 <= i < |cs| ==> (cs[i] in FreeCouriers(cs) <==> !(cs[i] in BusyCouriers(cs)))
    ensures forall i :: 0 <= i < |cs| ==> (cs[i] in FreeCouriers(cs) || cs[i] in BusyCouriers(cs))
    ensures |FreeCouriers(cs)| + |BusyCouriers(cs)| == |cs|
  {
    FilterCount(cs, IsFree);
    FilterCount(cs, IsBusy);
    CountComplement(cs, IsFree, IsBusy);
  }

  /** The delete button of a courier in the busy list is disabled while
      `currentOrderId` is defined. The button in the free list is never
      disabled; the two agree on consistent stores, where a free courier
      holds no order. */
  predicate DeleteEnabled(c: Courier)
  {
    c.currentOrderId.None?
  }

  /** The button and the store agree: for a courier whose id is unique, an
      enabled button means the store removes it, and a store refusal means
      the button was disabled. They part only on an order id `''`, which the
      button treats as defined and the store as absent. */
  lemma DeleteControlMatchesStore(s: Store, k: nat)
    requires k < |s.couriers|
    requires forall i :: 0 <= i < |s.couriers| && s.couriers[i].id == s.couriers[k].id ==> i == k
    ensures DeleteEnabled(s.couriers[k]) ==> DeleteCourier(s, s.couriers[k].id).Ok?
    ensures DeleteCourier(s, s.couriers[k].id).Refused? ==> !DeleteEnabled(s.couriers[k])
    ensures s.couriers[k].currentOrderId != Some("") ==>
              (DeleteEnabled(s.couriers[k]) <==> DeleteCourier(s, s.couriers[k].id).Ok?)
  {
  }

  /** Deleting a courier with distinct ids and no order removes exactly
      that courier and keeps the others in order. */
  lemma DeleteCourierRemovesExactlyOne(s: Store, k: nat)
    requires k < |s.couriers|
    requires forall i :: 0 <= i < |s.couriers| && s.couriers[i].id == s.couriers[k].id ==> i == k
    requires !Truthy(s.couriers[k].currentOrderId)
    ensures DeleteCourier(s, s.couriers[k].id) ==
              Ok(s.(couriers := s.couriers[..k] + s.couriers[k + 1..]))
  {
    var id := s.couriers[k].id;
    FilterRemovesOne(s.couriers, c => !CourierIdIs(id, c), k);
  }

  /** A refused deletion leaves the roster exactly as it was. */
  lemma RefusedDeleteKeepsRoster(s: Store, k: nat)
    requires k < |s.couriers|
    requires forall i :: 0 <= i < |s.couriers| && s.couriers[i].id == s.couriers[k].id ==> i == k
    requires Truthy(s.couriers[k].currentOrderId)
    ensures DeleteCourier(s, s.couriers[k].id) == Refused(ActiveOrderAlert)
  {
  }
}
