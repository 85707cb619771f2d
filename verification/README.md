# Shipping-info reducer and product list view of a storefront

This project models two pure pieces of a storefront web client in Dafny.

- `ShippingInfoStore` (`shipping_info.dfy`) models the shipping-info store slice. It covers the slice's initial state, its five action kinds and the reducer that folds one action into the next state. The reducer does not treat its state consistently:
  - the initial state is `[]` (line 3);
  - fetch-all and fetch-one replace the state with their payload (lines 82 and 84);
  - add spreads the state as an array (line 86);
  - update and delete read a `shippingInfo` field of the state (lines 88 and 96).
  So the state is a sum type with three shapes: `List`, `Single` and `Wrapped`. A branch that would raise a JavaScript TypeError returns `Throws` instead of a next state. `Run` folds a sequence of actions and stops at the first one that throws.
- `AllProductsList` (`all_products_list.dfy`) models the product list view. It maps the products and the user's admin flag to one list entry per product. An entry is either an empty placeholder or the displayed product data plus its buttons. Each button records the callback its click invokes and the argument it passes.
- `Sequences` (`sequences.dfy`) defines order-preserving subsequences. They are used to state what the delete branch keeps.

Ids are compared with strict equality, so they are modelled as `int`.

Two behaviours of the code are kept as written:
- Fetch-one overwrites the whole state with the single record. There is no separate current-item slot.
- Update and delete read `state.shippingInfo`, not the state array (see Findings).

## Model

| member | source | states |
|---|---|---|
| ShippingInfoStore.Reduce | client/store/shippinginfo.js:79-104 | The reducer as written. It throws exactly when add meets a state that is not an array, or when update or delete meet a state without a `shippingInfo` array. Add gives the old records in order followed by the payload. Update keeps the length: positions whose id equals the payload's id become the payload and all others are unchanged. Delete leaves no record with the id, yields a subsequence of the old list, and removes exactly the matching records. Update and delete both return a bare array. |
| ShippingInfoStore.ReplaceById | client/store/shippinginfo.js:88-93 | The update `map` keeps the length. Every record with the payload's id becomes the payload and every other record is unchanged. |
| ShippingInfoStore.RemoveById | client/store/shippinginfo.js:96-99 | The delete `filter`: a record is in the result iff it was in the list and has another id. The result is an order-preserving subsequence of the list, shorter by exactly the number of matching records. |
| ShippingInfoStore.RemoveByIdIsUnique | client/store/shippinginfo.js:96-99 | Any subsequence of the list that avoids the id and has as many records as the list has of other ids equals the delete result. So delete keeps exactly the non-matching records, in their original order. |
| ShippingInfoStore.RemoveAbsentIsIdentity | client/store/shippinginfo.js:96-99 | Deleting an id that no record has returns the list unchanged. |
| ShippingInfoStore.RemoveIsIdempotent | client/store/shippinginfo.js:96-99 | Filtering out an id twice gives the same list as filtering it out once. |
| ShippingInfoStore.ReplaceAbsentIsIdentity | client/store/shippinginfo.js:88-93 | Updating with an id that no record has returns a list equal to the original. |
| ShippingInfoStore.UnknownActionIsIdentity | client/store/shippinginfo.js:101-102 | An action whose type is none of the five type strings (lines 6-10) returns the state unchanged. |
| ShippingInfoStore.GetIsIdempotent | client/store/shippinginfo.js:81-82 | Fetch-all yields exactly its payload, whatever the prior state. Applying it twice equals applying it once. |
| ShippingInfoStore.GetSingleOverwrites | client/store/shippinginfo.js:83-84 | Fetch-one replaces the whole state, list included, with the single record. On that record, add, update and delete all throw. |
| ShippingInfoStore.MutationsFailOnArrays | client/store/shippinginfo.js:86-100 | On an array-shaped state, the initial one included, update and delete throw instead of producing a list. |
| ShippingInfoStore.OnlyMutationsThrow | client/store/shippinginfo.js:79-104 | A run of fetch-all, fetch-one and other actions never throws, whatever the starting state. |
| ShippingInfoStore.UpdateAndDeleteAlwaysThrow | client/store/shippinginfo.js:79-104 | Suppose a run starts from a state without a `shippingInfo` field and every fetch-all carries a bare array. Then any update or delete in the run makes it throw. |
| ShippingInfoStore.AddThenUpdateThrows | client/store/shippinginfo.js:85-94 | Concrete run: after one add to the initial state, an update of that record throws. The intended reducer replaces the record instead. |
| ShippingInfoStore.ReduceIntended | client/store/shippinginfo.js:87-100 | Corrected reducer: update and delete map and filter the state array itself. It throws only when add, update or delete meet a state that is not an array. Update keeps the length and replaces exactly the positions whose id equals the payload's. Delete leaves no record with the id, yields a subsequence of the old array, and removes exactly the matching records. |
| ShippingInfoStore.IntendedMatchesWrittenOnInnerList | client/store/shippinginfo.js:87-100 | The corrected update and delete on an array give the same result as the written ones on an object whose `shippingInfo` is that array. |
| ShippingInfoStore.IntendedRunsNeverThrow | client/store/shippinginfo.js:79-104 | With the corrected reducer, a run from an array state never throws and ends on an array. This assumes no fetch-one in the run and that every fetch-all carries an array. |
| ShippingInfoStore.IntendedAddThenDeleteRestores | client/store/shippinginfo.js:85-100 | With the corrected reducer, adding a record with a fresh id and then deleting that id restores the list. |
| AllProductsList.RenderProduct | client/components/AllProductsList.js:8-42 | An out-of-stock product yields an empty placeholder with no buttons. An in-stock product yields an entry carrying its id, name, description, price and photo. That entry has a Delete button iff the user is an admin, and always has an Add to Cart button. Every button passes this product to its callback, and only the Delete button calls `handleDelete`. |
| AllProductsList.Render | client/components/AllProductsList.js:7-45 | Exactly one entry per product, in the same order, with nothing filtered out. Entry `i` is a placeholder iff product `i` is out of stock. Otherwise it shows product `i`, and its buttons all target product `i`. |
| AllProductsList.RenderAt | client/components/AllProductsList.js:7-8 | Position `i` of the list is the entry rendered for product `i`. |
| AllProductsList.ButtonCountFormula | client/components/AllProductsList.js:24-41 | Total buttons = (number of in-stock products) × (2 for an admin, 1 otherwise). |
| AllProductsList.RenderProductLabelCounts | client/components/AllProductsList.js:24-41 | One product's entry has one Delete button when in stock and the user is an admin, and none otherwise. It has one Add to Cart button when in stock. |
| AllProductsList.DeleteGating | client/components/AllProductsList.js:24-41 | A non-admin sees zero Delete buttons. An admin sees exactly one per in-stock product. Everyone sees exactly one Add to Cart button per in-stock product. |
| AllProductsList.ClickDispatchesProduct | client/components/AllProductsList.js:24-41 | On an in-stock entry, clicking Delete calls `handleDelete` with exactly that product when the user is an admin. For a non-admin there is no Delete button. Clicking Add to Cart always calls `addToCart` with that product. There is no validation before the callback. |
| AllProductsList.OutOfStockIsBlank | client/components/AllProductsList.js:8-42 | An out-of-stock product's entry is the empty placeholder. It carries no product data and has no button to click. |

## Findings

| source | as written | input that shows it | evidently intended | confidence | as-written member | corrected member |
|---|---|---|---|---|---|---|
| client/store/shippinginfo.js:88-96 | Update and delete call `map`/`filter` on `state.shippingInfo`. The initial state is `[]` (line 3) and add spreads the state as an array (line 86), so the state is an array, not an object with a `shippingInfo` field. | Initial state `[]`, then add record `{id: 1}`, then update `{id: 1}`. `[{id: 1}].shippingInfo` is undefined, so `.map` throws a TypeError. | Update and delete map and filter the state array, so a record added or fetched can later be updated or deleted. | high (not executed) | ShippingInfoStore.AddThenUpdateThrows | ShippingInfoStore.IntendedRunsNeverThrow |

`ShippingInfoStore.Reduce` keeps the as-written behaviour. `UpdateAndDeleteAlwaysThrow` shows the general case: a `Wrapped` state can only come from a fetch-all whose server body is an object with a `shippingInfo` array. Without such a body, no update or delete ever succeeds. `ShippingInfoStore.ReduceIntended` is the corrected reducer. Both reducers share the list operations `ReplaceById` and `RemoveById` and the properties proved about them.

## Left out

- The asynchronous thunks in client/store/shippinginfo.js:40-77 are left out. They are network I/O followed by a dispatch of the action this model consumes. They also have two apparent defects:
  - the delete thunk calls `/api/products/:id` rather than a shipping-info endpoint (line 74);
  - three URLs lack the leading slash (lines 49, 56, 65).
- The action creators (client/store/shippinginfo.js:13-36) are the constructors of `Action`. `Other(tag)` stands for any action whose type string is none of the five constants; its `UnknownType` excludes those strings. An action that carries one of those strings but lacks its payload field is not represented.
- What the store does when the reducer throws is not modelled. That is the state-container library's behaviour, not this code's. `Run` simply stops at the first `Throws`.
- `Record` keeps only the `id` the reducer inspects, plus an opaque details string. `Product.price` is an `int` because the view only displays it.
- `Product.inStock` is a `bool`. A missing or falsy JavaScript value is `false`, which is how the view's ternary treats it.
- client/components/EditProduct.js is not modelled. It is component lifecycle, routing and form glue. Its one decision compares `product.id` with `parseInt` of the route parameter (lines 46-48), while the update payload carries the raw string id (lines 31-34). That depends on JavaScript coercion and `parseInt` semantics, which are outside this model.
- client/components/OrderSummary.js is not modelled: it is a read-only display of three fields.
- Markup details are not modelled: link paths, the `/` prefix on image sources, element nesting, React keys and the connect/router binding. An entry keeps only the displayed product fields and its buttons, in their on-screen order (Delete before Add to Cart).
- The component test file's expectations for the list (three items with text, and button counts) are not used. Its fixtures have no `inStock` field, so the component renders placeholders for them.
