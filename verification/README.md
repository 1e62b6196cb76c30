# Pizza CRM: the order/courier store in Dafny

This project models the state logic of a small pizza-delivery CRM written in
React and TypeScript. The application keeps three collections in component
state: the menu (pizzas), the courier roster and the orders. The handlers in
`src/App.tsx` add, edit and delete records and put couriers on orders. While
doing so they keep two sides consistent:

- a courier's `status` and `currentOrderId`;
- an order's `courierId`, `courierName` and `status`.

The order screen (`src/components/OrderManagement.tsx`) does several things:

- it builds orders from a draft form, snapshotting each pizza's name and price and computing the total;
- it edits the draft item list;
- it splits orders into active and finished ones and sums the revenue;
- it offers a courier picker that lists only free couriers and the order's own courier.

The courier screen (`src/components/CourierManagement.tsx`) adds couriers as
free, edits only name and phone, and splits the roster into free and busy.

The model, by file:

- `types.dfy` (module `Types`) holds the records of `src/types/index.ts` as datatypes. It also holds `Option`, a `Result` whose `Refused` stands for an `alert`, JavaScript truthiness of optional ids, and the object-spread merges behind `Partial<T>` updates.
- `collection.dfy` (module `Collection`) models the three array idioms the handlers use: `find` (first match), `filter`, and a `map` that rewrites the matching records.
- `app.dfy` (module `App`) holds the store and every handler. The store is one immutable `Store` of three sequences. Each handler is one atomic, pure transition. New ids and the clock are parameters.
- `seed.dfy` (module `Seed`) holds the initial store.
- `orders.dfy` (module `OrderManagement`) and `couriers.dfy` (module `CourierManagement`) hold the logic of the two screens.
- `coordination.dfy` (module `Coordination`) holds the store invariant `Inv`, the proofs that each handler preserves it, and the counterexamples that show why the guards are needed.

`Inv` says four things:

- courier ids are distinct and non-empty, and so are order ids;
- a courier is busy exactly when it holds an order;
- the order a courier holds exists, is active and names that courier;
- an active order that names a courier is held by it.

The store never checks these conditions itself. The screens enforce them instead:

- the picker offers only free couriers and the order's current one;
- it is disabled on completed and cancelled orders;
- the status selector and the delete button appear only for active orders.

The preservation lemmas take those screen checks as preconditions (`CanAssign`, `ShownAsActive`).

## Model

| member | source | states |
|---|---|---|
| `Types.OrderStatusIsOneOfSix` | src/types/index.ts:32 | An order status is one of six distinct values, and it is closed exactly when it is completed or cancelled. |
| `Types.MergePizzaLaws` | src/App.tsx:111-113 | Spreading a pizza patch, field by field: each of `id`, `name`, `description`, `price`, `image` and `available` takes the patch's value when present and keeps the pizza's own otherwise. The empty patch is the identity, and applying a patch twice equals applying it once. |
| `Types.MergeCourierLaws` | src/App.tsx:128-130 | The same laws for a courier patch, field by field: each of `id`, `name`, `phone`, `status` and `currentOrderId` takes the patch's value when present and keeps the courier's own otherwise. |
| `Types.MergeOrderLaws` | src/App.tsx:156 | The same laws for an order patch, field by field: each of `id`, `customerName`, `customerPhone`, `customerAddress`, `items`, `total`, `status`, `courierId`, `courierName`, `createdAt` and `updatedAt` takes the patch's value when present and keeps the order's own otherwise. The empty patch is the identity, and applying a patch twice equals applying it once. |
| `Types.StatusPatchTouchesOnlyStatus` | src/components/OrderManagement.tsx:96-98 | The status selector's patch `{ status }` changes the status and no other field of the order. |
| `Collection.Find` | src/App.tsx:174 | `find` gives nothing exactly when no element matches. Otherwise it gives a matching element with no match before it. |
| `Collection.FindLast` | src/App.tsx:154-165 | Gives nothing exactly when no element matches. Otherwise it gives a matching element with no match after it, which is what the last of several `setCouriers` calls from one snapshot leaves behind. |
| `Collection.UpdateWhere` | src/App.tsx:112 | `map` with a conditional rewrite keeps the length, rewrites every hit in place, keeps every other element, and changes nothing when nothing matches. It is used at lines 112, 129, 160, 177, 194, 202 and 208. |
| `Collection.Filter` | src/App.tsx:116 | `filter` keeps only elements that pass, keeps every element that passes, never grows the sequence, and is the identity when all elements pass. |
| `Collection.FilterAppend` | src/App.tsx:183 | Filtering a concatenation is the concatenation of the filtered parts, so the records that survive a deletion keep their relative order. |
| `Collection.FilterCount` | src/components/CourierManagement.tsx:53-54 | The length of a filtered list equals the number of elements that pass the test. |
| `Collection.FilterRemovesOne` | src/App.tsx:139 | When exactly one element fails, filtering removes exactly that index and keeps the others in order. |
| `Collection.FilterHead` | src/components/OrderManagement.tsx:39 | The first element of a filtered list is the first element of the input that passes. |
| `Collection.FilterKeepsDistinct` | src/App.tsx:183 | Filtering cannot make two keys collide. |
| `Collection.UpdateWhereKeepsDistinct` | src/App.tsx:202-206 | A rewrite that keeps every key keeps the keys distinct. |
| `Collection.CountComplement` | src/components/OrderManagement.tsx:104-105 | Under two complementary tests, the two counts add up to the length. |
| `App.FindOrderIsFirst` | src/App.tsx:174 | The order lookup fails exactly when no order has the id. Otherwise it returns the order at the first index with the id. |
| `App.FindCourierIsFirst` | src/App.tsx:134 | The courier lookup fails exactly when no courier has the id. Otherwise it returns the courier at the first index with the id. |
| `App.LastCourierHolderIsLast` | src/App.tsx:154-165 | The order whose courier the update releases is the last order with the id that names a courier. There is none exactly when no such order exists. |
| `App.LastCourierHolder` | src/App.tsx:154-165 | The released order, if any, is an order of the list with the id that names a courier. There is none exactly when no order with the id names one. |
| `App.AddPizza` | src/App.tsx:103-109 | Exactly one pizza is appended, with the draft's fields and the new id. The existing pizzas are unchanged and stay in order, and couriers and orders are untouched. |
| `App.UpdatePizza` | src/App.tsx:111-113 | Every pizza with the id gets the patch merged in, and every other pizza is unchanged. An unknown id leaves the store unchanged. Orders, including their snapshots, are untouched. |
| `App.DeletePizza` | src/App.tsx:115-117 | No pizza with the id remains. Every other pizza survives, nothing new appears, an unknown id leaves the store unchanged, and orders keep their snapshots. The exact result is stated by `App.DeletePizzaRemovesExactlyOne`. |
| `App.DeletePizzaRemovesExactlyOne` | src/App.tsx:115-117 | With distinct ids, deleting the pizza at an index removes exactly that index and keeps the other pizzas in order. |
| `App.AddCourier` | src/App.tsx:120-126 | Exactly one courier is appended, with the draft's fields and the new id. The existing roster is unchanged. |
| `App.UpdateCourier` | src/App.tsx:128-130 | Every courier with the id gets the patch merged in, and every other courier is unchanged. An unknown id leaves the store unchanged. |
| `App.DeleteCourier` | src/App.tsx:132-140 | The deletion is refused, with the alert's message, exactly when the first courier with the id has a truthy `currentOrderId`. Otherwise no courier with the id remains, every other courier survives, and pizzas and orders are untouched. An unknown id is accepted and leaves the store unchanged. |
| `App.AddOrder` | src/App.tsx:143-151 | Exactly one order is appended. It has the draft's fields, the new id, and `createdAt` and `updatedAt` both equal to now. Earlier orders, pizzas and couriers are unchanged. |
| `App.Release` | src/App.tsx:160-164 | A released courier is free with no order, and keeps its id, name and phone. |
| `App.Bind` | src/App.tsx:208-212 | A bound courier is busy on the given order, and keeps its id, name and phone. |
| `App.ReleaseCourier` | src/App.tsx:177-181 | Every courier whose id is the truthy reference is released. All other couriers, and all couriers when the reference is falsy, are unchanged. |
| `App.UpdateOrder` | src/App.tsx:153-171 | Every order with the id is merged with the patch and stamped now, and the other orders are unchanged. A patch that does not close the order leaves the couriers unchanged. A closing patch releases the courier named by the last matching order that names one. |
| `App.DeleteOrder` | src/App.tsx:173-184 | No order with the id remains, and the other orders survive. The courier named by the first matching order is released, and the other couriers are unchanged. An unknown id leaves the store unchanged. The exact list is stated by `App.DeleteOrderRemovesExactlyOne`. |
| `App.DeleteOrderRemovesExactlyOne` | src/App.tsx:183 | With distinct ids, deleting the order at an index removes exactly that index and keeps the other orders in order. |
| `App.BindCourier` | src/App.tsx:208-212 | Every courier with the id is bound to the order, and every other courier is unchanged. |
| `App.AssignCourier` | src/App.tsx:186-190 | A missing order or a missing courier makes the assignment a no-op. The menu is never touched. |
| `App.AssignCourierAt` | src/App.tsx:186-213 | When both lookups succeed, every order with the id names the courier and copies its name. It gets status delivering and is stamped now. The courier is bound to the order, the courier the order named before is released, and nothing else changes. |
| `App.AssignCourierAsWritten` | src/App.tsx:193-212 | The handler as written produces the same orders as the intended one. Its couriers are only the bind applied to the old snapshot, so no courier is released. |
| `OrderManagement.Snapshot` | src/components/OrderManagement.tsx:45-51 | A line item copies `pizzaId` and `quantity`. It takes the name and price of the first pizza with that id, or `''` and 0 when the menu has no such pizza. |
| `OrderManagement.SnapshotItems` | src/components/OrderManagement.tsx:44-52 | One line item per draft row, in order. Each item is that row's snapshot: the row's pizza id and quantity, with the name and price of the first menu pizza with that id, or `''` and 0 when the menu has none. |
| `OrderManagement.Total` | src/components/OrderManagement.tsx:54 | One item gives its price × quantity. With no negative price or quantity, the total is never negative. |
| `OrderManagement.TotalAppend` | src/components/OrderManagement.tsx:54 | The total of a concatenation is the sum of the totals. |
| `OrderManagement.ReduceTotal` | src/components/OrderManagement.tsx:54 | The left-to-right `reduce` equals the recursive sum of price × quantity. |
| `OrderManagement.OrderDraftOf` | src/components/OrderManagement.tsx:41-63 | The submitted draft's items are the snapshots of the form's rows, at least one. Its total is the sum of price × quantity over those items, so it is computed from the menu's prices. Its status is pending, it has no courier fields, and it keeps the customer fields. |
| `OrderManagement.SubmitOrder` | src/components/OrderManagement.tsx:41-63 | Submitting appends one order. Its items are the menu snapshots of the form's rows, at least one, and its total is their sum of price × quantity. It carries the form's customer fields, is pending, and has no courier. Earlier orders, pizzas and couriers are unchanged. |
| `OrderManagement.AvailablePizzas` | src/components/OrderManagement.tsx:39 | The list holds only available menu pizzas, and every available one. |
| `OrderManagement.AddPizzaToOrder` | src/components/OrderManagement.tsx:74-81 | The first available pizza is appended with quantity 1. With no pizza available, the list is unchanged. |
| `OrderManagement.RemovePizzaFromOrder` | src/components/OrderManagement.tsx:83-88 | Exactly the given index is removed, and the rest keep their order. An index out of range leaves the list unchanged. |
| `OrderManagement.UpdatePizzaInOrder` | src/components/OrderManagement.tsx:90-94 | Only the given index is replaced, with the chosen pizza and quantity. The length is kept. |
| `OrderManagement.EditingKeepsPositiveQuantities` | src/components/OrderManagement.tsx:74-94 | Adding, updating (with `min="1"`) and removing rows keep every quantity at least 1, and so do the snapshots taken from the rows. |
| `OrderManagement.ActiveOrders` | src/components/OrderManagement.tsx:104 | The active list holds only orders of the store that are neither completed nor cancelled, and every such order. |
| `OrderManagement.CompletedOrders` | src/components/OrderManagement.tsx:105 | The finished list holds only orders of the store that are completed or cancelled, and every such order. |
| `OrderManagement.OrdersPartition` | src/components/OrderManagement.tsx:104-105 | Every order is in exactly one of the active and finished lists, and their lengths add up to the number of orders. |
| `OrderManagement.SumTotalsCons` | src/components/OrderManagement.tsx:238-240 | Summing totals over a list that starts with an order adds that order's total to the sum of the rest. |
| `OrderManagement.Revenue` | src/components/OrderManagement.tsx:238-240 | The revenue card shows exactly the sum of totals over the completed orders. Cancelled orders are excluded. |
| `OrderManagement.CardSumIsCompletedRevenue` | src/components/OrderManagement.tsx:238-240 | The card's filter-completed, filter-status, reduce pipeline equals the reference sum of totals over the orders whose status is completed. |
| `OrderManagement.CompletedRevenueAppend` | src/components/OrderManagement.tsx:238-240 | The revenue of a concatenation is the sum of the revenues. |
| `OrderManagement.RevenueOfNewOrder` | src/components/OrderManagement.tsx:238-240 | A completed order adds its total to the revenue. A cancelled order, or any other status, adds nothing. |
| `OrderManagement.CourierCandidates` | src/components/OrderManagement.tsx:327-328 | The picker lists only couriers of the roster that are free or already on the order, and lists every such courier. |
| `OrderManagement.CandidateIffFreeOrCurrent` | src/components/OrderManagement.tsx:327-328 | A courier is offered if and only if it is free or already named by the order. |
| `OrderManagement.ShownAsActive` | src/components/OrderManagement.tsx:250 | The guard of the status selector (line 299) and the delete button (line 340) holds exactly when an order with the id is in the active list, which is the only list that renders those controls. |
| `OrderManagement.CanAssignMatchesPicker` | src/components/OrderManagement.tsx:319-328 | The guard of the picker holds exactly when the active list shows an order with the id whose candidate list offers a courier with the other id. The picker is not rendered for finished orders and is disabled for closed ones (line 321). |
| `CourierManagement.LoadForEdit` | src/components/CourierManagement.tsx:40-46 | The edit form holds exactly the selected courier's name and phone. |
| `CourierManagement.EditPatch` | src/components/CourierManagement.tsx:28 | An edit sends only name and phone. It carries no id, status or `currentOrderId`. |
| `CourierManagement.NewCourierDraft` | src/components/CourierManagement.tsx:31-34 | A new courier is free, has no order, and takes the form's name and phone. |
| `CourierManagement.SubmitCourierForm` | src/components/CourierManagement.tsx:25-38 | Adding appends a free courier with no order. Editing changes only the name and phone of the edited courier, and keeps every status and `currentOrderId`. |
| `CourierManagement.EditUnchangedIsIdentity` | src/components/CourierManagement.tsx:25-46 | With distinct ids, loading a courier into the form and saving it unchanged leaves the store as it was. |
| `CourierManagement.FreeCouriers` | src/components/CourierManagement.tsx:53 | The free list holds only couriers of the roster that are free, and every free one. |
| `CourierManagement.BusyCouriers` | src/components/CourierManagement.tsx:54 | The busy list holds only couriers of the roster that are busy, and every busy one. |
| `CourierManagement.RosterPartition` | src/components/CourierManagement.tsx:53-54 | Every courier is in exactly one of the free and busy lists, and the two counts add up to the roster size. |
| `CourierManagement.DeleteControlMatchesStore` | src/components/CourierManagement.tsx:284 | For a courier with a unique id, the button is enabled exactly when the store accepts the deletion, unless the order id is `''`. An enabled button always leads to acceptance. |
| `CourierManagement.DeleteCourierRemovesExactlyOne` | src/App.tsx:132-140 | With distinct ids, deleting a courier that holds no order removes exactly that index and keeps the others in order. |
| `CourierManagement.RefusedDeleteKeepsRoster` | src/App.tsx:135-137 | Deleting a courier that holds an order is refused with the alert, and the store is not changed. |
| `Seed.SeedStoreWith` | src/App.tsx:11-100 | The initial couriers and orders under any menu. Every seed order has items, and its total equals the sum of price × quantity over them, as a submitted order would. A seed courier is busy exactly when it holds an order. |
| `Coordination.SeedSatisfiesInv` | src/App.tsx:47-100 | The initial couriers and orders satisfy the invariant under any menu. Courier 3 is busy on order 1, and order 1 names courier 3. |
| `Coordination.InitialStoreSatisfiesInv` | src/App.tsx:11-100 | The store the application starts with satisfies the invariant. |
| `Coordination.PizzaOpsPreserveInv` | src/App.tsx:103-117 | Adding, editing and deleting pizzas keep the invariant. |
| `Coordination.AddCourierPreservesInv` | src/components/CourierManagement.tsx:31-34 | Adding a courier from the form under a fresh non-empty id keeps the invariant. |
| `Coordination.EditCourierPreservesInv` | src/components/CourierManagement.tsx:27-29 | Saving the edit form keeps the invariant. |
| `Coordination.AcceptedDeleteHeldNoOrder` | src/App.tsx:134-139 | With distinct ids, a courier that the store lets be deleted held no order. |
| `Coordination.DeleteCourierShrinksRoster` | src/App.tsx:132-140 | An accepted deletion only removes couriers that held no order. |
| `Coordination.RosterShrinksKeepsInv` | src/App.tsx:139 | Removing couriers that held no order keeps the invariant. |
| `Coordination.DeleteCourierPreservesInv` | src/App.tsx:132-140 | Every deletion the store accepts keeps the invariant. |
| `Coordination.FreeCourierDeleteEnabled` | src/components/CourierManagement.tsx:186-193 | On a consistent store, a courier in the free list holds no order. The busy-list rule (line 284) therefore also enables its button, and the store accepts its deletion, matching the free-list button that is never disabled. |
| `Coordination.OrderIsFirst` | src/App.tsx:174 | With distinct ids, every order is the one `find` returns for its id. |
| `Coordination.CourierIsFirst` | src/App.tsx:188 | With distinct ids, every courier is the one `find` returns for its id. |
| `Coordination.NamedCourierHolds` | src/types/index.ts:33-34 | Under the invariant, the courier an active order names holds that order. |
| `Coordination.HeldOrderNames` | src/types/index.ts:15 | Under the invariant, the order a courier holds names that courier and is active. |
| `Coordination.LastHolderIsTheOrder` | src/App.tsx:154-165 | With distinct ids, the last order with the id that names a courier is the one order with that id, when it names a courier. |
| `Coordination.SubmitOrderPreservesInv` | src/components/OrderManagement.tsx:41-63 | Submitting a new order (pending, no courier) under a fresh non-empty id keeps the invariant. |
| `Coordination.AppendedOrderKeepsInv` | src/App.tsx:143-151 | Appending an order that names no courier, under a fresh non-empty id, keeps the invariant. |
| `Coordination.AppendedOrderKeepsCouriersBound` | src/App.tsx:150 | Appending orders keeps every courier bound. |
| `Coordination.StatusStepKeepsIds` | src/App.tsx:155-156 | A status change keeps every id distinct and non-empty. |
| `Coordination.StatusStepKeepsCouriersBound` | src/App.tsx:159-164 | A status change on an active order, which releases the courier it names when the status closes it, keeps every courier bound. |
| `Coordination.StatusStepKeepsCourierBound` | src/App.tsx:159-164 | The same fact for a single courier. |
| `Coordination.StatusStepKeepsOrdersBound` | src/App.tsx:153-171 | A status change on an active order keeps every active order held by the courier it names. |
| `Coordination.UpdateStatusIsStatusStep` | src/App.tsx:153-171 | With distinct ids, a status-only update changes the status of the one order, keeps its courier reference, and releases its courier when the status closes it. |
| `Coordination.StatusStepKeepsInv` | src/App.tsx:153-171 | A status change on an active order keeps the invariant. |
| `Coordination.UpdateStatusPreservesInv` | src/components/OrderManagement.tsx:296-299 | Changing the status of an order shown as active keeps the invariant, whichever of the six statuses is chosen. |
| `Coordination.DeleteOrderIsDeleteStep` | src/App.tsx:173-184 | With distinct ids, a deletion removes the one order and releases the courier it names. |
| `Coordination.DeleteStepKeepsCouriersBound` | src/App.tsx:175-183 | Removing an order and releasing its courier keeps every courier bound. |
| `Coordination.DeleteStepKeepsCourierBound` | src/App.tsx:175-183 | The same fact for a single courier. |
| `Coordination.DeleteStepKeepsOrdersBound` | src/App.tsx:183 | Removing an active order keeps every remaining active order held by its courier. |
| `Coordination.DeleteStepKeepsInv` | src/App.tsx:173-184 | Removing an active order and releasing its courier keeps the invariant. |
| `Coordination.DeleteOrderPreservesInv` | src/components/OrderManagement.tsx:340 | Deleting an order shown as active keeps the invariant. |
| `Coordination.AssignIsAssignStep` | src/App.tsx:186-213 | With distinct ids, an assignment puts the courier on the one order, releases the courier the order named before, and binds the new one. |
| `Coordination.AssignShapeIsStep` | src/App.tsx:192-212 | The pointwise effect of an assignment is an assignment step. |
| `Coordination.AssignStepKeepsIds` | src/App.tsx:202-212 | An assignment keeps every id distinct and non-empty. |
| `Coordination.AssignStepKeepsCouriersBound` | src/App.tsx:192-212 | After an assignment, every courier is busy exactly when it holds an order that names it back. |
| `Coordination.AssignStepKeepsCourierBound` | src/App.tsx:192-212 | The same fact for a single courier. |
| `Coordination.AssignStepKeepsUntouchedBound` | src/App.tsx:208-212 | A courier that the assignment leaves alone stays bound. |
| `Coordination.AssignStepKeepsOrdersBound` | src/App.tsx:202-206 | Assigning a free or current courier to an active order keeps every active order held by the courier it names. |
| `Coordination.AssignPreservesInv` | src/components/OrderManagement.tsx:319-328 | Assigning a courier that the picker offers, to an order whose picker is enabled, keeps the invariant. |
| `Coordination.AssignStepKeepsInv` | src/App.tsx:186-213 | An assignment step of a free or current courier onto an active order keeps the invariant. |
| `Coordination.CloseReleasesCourier` | src/App.tsx:159-164 | Completing or cancelling an order frees the courier it names. The order keeps its `courierId` as history, and every other courier is unchanged. |
| `Coordination.ReleaseIsIdempotent` | src/App.tsx:153-171 | Closing an order a second time leaves the couriers as the first close left them. |
| `Coordination.ReleaseCourierIdempotent` | src/App.tsx:160-164 | Releasing the same courier twice is the same as releasing it once. |
| `Coordination.AssignStepSoleHolder` | src/App.tsx:192-212 | After an assignment, only the assigned courier holds the order. |
| `Coordination.SecondAssignMovesHold` | src/App.tsx:208-212 | A second assignment of the same courier moves its hold to the new order, and no courier holds the old one. |
| `Coordination.TwoAssignStepsMoveHold` | src/App.tsx:186-213 | Two assignment steps of one courier to two orders leave it busy on the second, and nobody holds the first. |
| `Coordination.ReassignNeverDoubleBooks` | src/App.tsx:186-213 | Assigning a courier to one order and then to another never leaves any courier holding the first order. |
| `Coordination.SeedPickerOffersFreeCourier` | src/components/OrderManagement.tsx:327-328 | On the initial store, the picker of order 1 offers the free courier 1. |
| `Coordination.PickerHidesBusyCourier` | src/components/OrderManagement.tsx:327-328 | With distinct ids, the picker never offers a busy courier that the order does not already name. |
| `Coordination.SeedPickerHidesBusyCourier` | src/components/OrderManagement.tsx:327-328 | On the initial store, courier 3, busy on order 1, is not offered for order 2. |
| `Coordination.HoldingForeignOrderBreaksInv` | src/types/index.ts:15 | A courier holding an order that does not name it violates the invariant. |
| `Coordination.AssignAsWrittenLosesRelease` | src/App.tsx:193-212 | On the initial store, moving order 1 to courier 1 with the handler as written (a choice the picker offers) leaves courier 3 busy on order 1, which names courier 1. The invariant breaks. |
| `Coordination.AssignReleasesPreviousCourier` | src/App.tsx:192-199 | The intended handler on the same choice frees courier 3, binds courier 1 to order 1, and keeps the invariant. |
| `Coordination.NamingUnheldCourierBreaksInv` | src/types/index.ts:33-34 | An active order naming a courier that does not hold it violates the invariant. |
| `Coordination.AssigningBusyCourierBreaksInv` | src/App.tsx:208-212 | Without the free-courier check, giving a courier that holds another active order to a second order breaks the invariant. |
| `Coordination.UnguardedAssignBreaksInv` | src/App.tsx:186-213 | On the initial store, giving courier 3 to order 2 (which the picker hides) breaks the invariant. |
| `Coordination.ReleaseOfFinishedOrderBreaksInv` | src/App.tsx:159-181 | A finished order that still names a courier now holding another active order is not shown as active. Deleting or re-closing it anyway would break the invariant. |
| `Coordination.DeleteStepOrphansOrder` | src/App.tsx:175-181 | Deleting an order that names a courier, while another active order also names it, leaves that active order unheld. |
| `Coordination.StatusStepOrphansOrder` | src/App.tsx:159-164 | Closing an order that names a courier, while another active order also names it, leaves that active order unheld. |
| `Coordination.SeedCompletionFreesCourier` | src/App.tsx:153-171 | Completing order 1 of the initial store frees courier 3 and keeps the invariant. Order 1 still names courier 3. |
| `Coordination.StatusStepAfterSeedCompletion` | src/App.tsx:153-171 | The facts of that completion, read off the status step. |
| `Coordination.FreeCourierTakesNewOrder` | src/App.tsx:186-213 | A courier freed by a completed order can be given to another active order, with the invariant kept. The completed order still names it. |
| `Coordination.ReassignedCourierIsReleasedByHistory` | src/App.tsx:173-184 | After such a reassignment, the completed order is hidden from the active list. Deleting or re-closing it would free the courier under its new order. |
| `Coordination.SeedReachesStaleRelease` | src/App.tsx:11-213 | From the initial store, guarded steps reach such a state: complete order 1, then give courier 3 to order 2. |

## Left out

- `src/components/PizzaManagement.tsx` (the menu form, `parseFloat` of the price, image rendering) is not part of this model. The pizza store operations are modelled through `src/App.tsx`.
- JSX rendering, `statusConfig` labels and colours, dialogs and their open/close state are left out. So is `toFixed` formatting of sums: they display values and change no state.
- Floating point: prices, totals and revenue are integers. All seed prices are whole roubles.
- The `parseInt` result of the quantity input can be `NaN`, which the model does not represent. The input's `min="1"` becomes the precondition `quantity >= 1` of `OrderManagement.UpdatePizzaInOrder`.
- React state batching and stale closures: each handler is one atomic transition. The one place where this changes the outcome, `handleAssignCourier`, is modelled both ways (see Findings). In `handleUpdateOrder`, repeated `setCouriers` calls from one snapshot are modelled as "the last call wins".
- `Date.now().toString()` ids and `new Date()` timestamps are parameters. The preservation lemmas require a fresh non-empty id, and timestamps are natural numbers.
- App.AddOrder: `createdAt` and `updatedAt` come from two separate `new Date()` calls (lines 147-148 of `src/App.tsx`), which may differ by a millisecond. The model reads the clock once and sets both to the same `now`.
- `alert()` becomes the `Refused` result carrying the alert's text.
- Distinct pizza ids are not part of the invariant. No handler reads them for consistency, because orders keep their own snapshots.
- App.AssignCourier: its own contract states only the no-op case and the untouched menu. The full effect of an assignment is stated by `App.AssignCourierAt`, which fixes the indices of the two lookups.
- Release is unconditional in the source (lines 159-164 and 175-181 of `src/App.tsx`). The invariant is therefore proved only under the screens' guards, and `Coordination.ReleaseOfFinishedOrderBreaksInv` and `Coordination.SeedReachesStaleRelease` show what happens outside them. It is not listed as a finding, because the finished list offers neither a delete nor a status control.

## Findings

| source | as written | input that shows it | evidently intended | confidence | as-written member | corrected member |
|---|---|---|---|---|---|---|
| src/App.tsx:193-212 | Both `setCouriers` calls start from the same `couriers` snapshot. The second replaces the first, so the courier previously on the order is never released. | The initial store. Assign order "1" (courier "3") to the free courier "1". Courier "3" stays busy on order "1", which now names courier "1". | Release the previous courier, then bind the new one, as the comment at line 192 says. | not executed | `App.AssignCourierAsWritten`, exhibited by `Coordination.AssignAsWrittenLosesRelease` | `App.AssignCourier`, proved by `Coordination.AssignPreservesInv` and `Coordination.AssignReleasesPreviousCourier` |
