# Order lifecycle and permission-scoped product listing

This project models the two controllers of the MvcProject web shop that hold
real decisions, with the database, HTTP and rendering abstracted away:

- **OrderController**: placing an order (quantity 1..100, the product must
  exist, total = price × quantity fixed at placement, new orders Pending and
  active), cancelling it (Admin role only, from any status, to Cancelled and
  inactive), confirming its receipt (only the caller's own order, only from
  Pending, to Received) and the two listings (admin `Index`: active orders;
  `MyOrders`: the caller's orders), both newest first.
- **ProductController**: the `Index` pipeline (visibility filter → optional
  name search → sort by name, descending for `"name_desc"` and ascending
  otherwise → a page of five, with the page count) and `Details`, which answers
  not-found, forbidden or the product, gated by `CanViewProduct`.

Modules:

| file | module | what it holds |
|---|---|---|
| wrappers.dfy | `Wrappers` | `Option`, the model of a nullable value |
| query.dfy | `Query` | Where, FirstOrDefault, OrderBy (a stable insertion sort over a total preorder), Skip and Take, with their proofs |
| text.dfy | `Text` | ordinal string order and substring search |
| models.dfy | `Models` | `Actor`, `Product`, `ProductPermission`, `Order`, `Status` |
| products.dfy | `ProductCatalog` | visibility, search, sort, paging, `Index`, `Details` |
| orders.dfy | `OrderLifecycle` | the order table as a value, `Place`, `Cancel`, `Confirm`, the listings, and lemmas over runs of requests |
| order_store.dfy | `OrderStore` | class `OrderController` holding the mutable order table; its methods are tied to the functions above |

Modelling choices:

- Money is integer cents, since the price and total columns are decimal(18,2).
  `TotalPrice = Price * quantity` is then exact.
- The clock (`DateTime.UtcNow`) is a `now` parameter. The identity column that
  numbers new orders is the `nextId` field, starting at 1.
- The caller is an `Actor`. It has the user id the user manager reports, which
  may be null (`Option<string>`), and an Admin flag. The creator test compares
  two nullable ids the way C# does, so null equals null. A grant's user id is
  never null, so a caller without an id never matches a grant.
- The role attributes (`[Authorize(Roles = "Admin")]`) on `CancelOrder` and on
  the order `Index` are part of the model. A non-admin gets `Forbidden` and
  `None` respectively.
- Outcomes: `Ok`, `Invalid` (bad quantity), `NotFound`, `BadRequest`
  (confirming a non-Pending order) and `Forbidden`.
- The order model file `Models/Order.cs` lacks most of the fields the
  controller uses. The `Order` datatype takes its fields from the controller
  instead. Status is a three-case datatype; the literal `"Cancelled"` written
  by `CancelOrder` is `Cancelled`.
- Confirming a non-Pending order answers `BadRequest` (HTTP 400), not a
  conflict response.
- No rule that a price is at least zero is enforced anywhere, so prices are
  any integer.
- Cancelling is allowed from any status, including Cancelled and Received.
- The page offset `(page - 1) * pageSize` is C# 32-bit `int` arithmetic. The
  model computes it with explicit wrap-around (`Models.Wrap32`). Up to page
  429496730 it is exact. Beyond that it wraps, and a negative offset skips
  nothing, as LINQ's `Skip` defines it.

## Model

| member | source | states |
|---|---|---|
| `Query.Filter` | MvcProject-dotnet8/Controllers/ProductController.cs:31-34 | Where: an element is kept iff it satisfies the condition, and each kept element occurs as often as in the input |
| `Query.Skip` | MvcProject-dotnet8/Controllers/ProductController.cs:47 | Skip(n) drops the first n elements (none for n ≤ 0, all for n ≥ length), keeping the rest in order |
| `Query.Take` | MvcProject-dotnet8/Controllers/ProductController.cs:48 | Take(n) is the prefix of length n, or the whole sequence if it is shorter |
| `Query.FirstIndex` | MvcProject-dotnet8/Controllers/OrderController.cs:109-110 | FirstOrDefault: the returned position satisfies the condition and no earlier one does; none is returned exactly when no element satisfies it |
| `Query.SortBy` | MvcProject-dotnet8/Controllers/ProductController.cs:41-43 | OrderBy returns a permutation of its input (same multiset) |
| `Query.SortBySorted` | MvcProject-dotnet8/Controllers/ProductController.cs:41-43 | for any total preorder, OrderBy's result is sorted by it |
| `Query.SkipTakeSlice` | MvcProject-dotnet8/Controllers/ProductController.cs:46-48 | Skip(n).Take(m) is the slice [n, n+m) clipped to the length: at most m items, item k is element n+k |
| `Text.NameLeTotal` | MvcProject-dotnet8/Controllers/ProductController.cs:41-43 | any two names compare under the ordinal name order |
| `Text.NameLeTransitive` | MvcProject-dotnet8/Controllers/ProductController.cs:41-43 | the ordinal name order is transitive |
| `ProductCatalog.NameOrdersArePreorders` | MvcProject-dotnet8/Controllers/ProductController.cs:41-43 | sorting by name ascending and descending are both total preorders on products |
| `ProductCatalog.CanViewMatchesVisible` | MvcProject-dotnet8/Controllers/ProductController.cs:86-97 | when a product's loaded permissions are its rows of the grants table, CanViewProduct and the listing's filter (lines 31-34) agree, both ways |
| `Models.Wrap32` | MvcProject-dotnet8/Controllers/ProductController.cs:47 | the result of unchecked 32-bit `int` arithmetic: in the int range, congruent to the exact value modulo 2^32, and equal to it when it fits |
| `Text.NameLe` | MvcProject-dotnet8/Controllers/ProductController.cs:41-43 | the ordinal name order used for sorting, a definition with no contract of its own; `NameLeTotal` and `NameLeTransitive` prove it a total preorder |
| `Text.Contains` | MvcProject-dotnet8/Controllers/ProductController.cs:38 | substring test of the search, a definition with no contract of its own: some suffix of the name starts with the term; `Search` and `ListingMembers` state its use |
| `ProductCatalog.VisibleProducts` | MvcProject-dotnet8/Controllers/ProductController.cs:31-34 | the store filtered by `Visible`, a definition with no contract of its own; `ListingMembers` and `Listing` state which products it keeps |
| `ProductCatalog.PageOffset` | MvcProject-dotnet8/Controllers/ProductController.cs:47 | the 32-bit offset `(page - 1) * pageSize`, a definition with no contract of its own; `PageOffsetRange` and `WrappedPageShowsFirstPage` state when it is exact and what it wraps to |
| `ProductCatalog.Visible` | MvcProject-dotnet8/Controllers/ProductController.cs:31-34 | the listing's filter, a definition with no contract of its own: admin, or creator, or a CanView grant of the caller; its meaning is stated by `ListingMembers` and `CanViewMatchesVisible` |
| `ProductCatalog.CanViewProduct` | MvcProject-dotnet8/Controllers/ProductController.cs:86-97 | the detail check, a definition with no contract of its own: admin, or creator, or a CanView row of the grants table for this product and caller; `CanViewMatchesVisible` proves it equal to `Visible` |
| `ProductCatalog.Search` | MvcProject-dotnet8/Controllers/ProductController.cs:36-39 | a null or empty search keeps every product unchanged; otherwise a product is kept iff its name contains the term |
| `ProductCatalog.SortByName` | MvcProject-dotnet8/Controllers/ProductController.cs:41-43 | sorting by name returns a permutation of its input (the direction is stated by `ListingSortedPermutation`) |
| `ProductCatalog.Listing` | MvcProject-dotnet8/Controllers/ProductController.cs:31-43 | each product occurs in the filtered, sorted list as often as in the store if it is visible and matches the search, and not at all otherwise |
| `ProductCatalog.Index` | MvcProject-dotnet8/Controllers/ProductController.cs:24-57 | at most 5 items, each from the whole listing; the page count covers the whole listing; the pager echoes page, search and sort order |
| `ProductCatalog.PageOffsetRange` | MvcProject-dotnet8/Controllers/ProductController.cs:47 | the 32-bit offset equals (page-1)·5 exactly when page ≤ 429496730 |
| `ProductCatalog.WrappedPageShowsFirstPage` | MvcProject-dotnet8/Controllers/ProductController.cs:46-48 | page 429496731 wraps the offset to -2147483646, so Skip drops nothing and the items are those of page 1 |
| `ProductCatalog.ListingMembers` | MvcProject-dotnet8/Controllers/ProductController.cs:31-39 | a product is in the listing iff it is in the store, and the actor is admin or its creator or holds a CanView grant, and it matches the search |
| `ProductCatalog.ListingSortedPermutation` | MvcProject-dotnet8/Controllers/ProductController.cs:41-43 | the listing is a permutation of the filtered products, sorted by name descending when the sort order is "name_desc" and ascending otherwise |
| `ProductCatalog.TotalPages` | MvcProject-dotnet8/Controllers/ProductController.cs:53 | the page count is the ceiling of the item count over 5: it covers every item and has no empty trailing page |
| `ProductCatalog.IndexPage` | MvcProject-dotnet8/Controllers/ProductController.cs:24-57 | the page is the slice [offset, offset+5) of the whole listing, clipped, at most 5 items, where the offset is the 32-bit (page-1)·5 and a negative offset counts as 0; the page count is the ceiling over the whole listing, not the page |
| `ProductCatalog.Details` | MvcProject-dotnet8/Controllers/ProductController.cs:60-78 | not-found iff the id is null or no product has it; forbidden only for an existing product CanViewProduct refuses; a shown product is in the store, has the id and passes the check |
| `ProductCatalog.DetailsMatchesListing` | MvcProject-dotnet8/Controllers/ProductController.cs:60-97 | with distinct product ids and linked grants, Details shows a product iff the listing's filter keeps it, and forbids it otherwise |
| `ProductCatalog.DetailsMissingIdExample` | MvcProject-dotnet8.Tests/Controllers/ProductControllerTests.cs:69-81 | Details of id 999, or of a null id, in an empty store is not-found |
| `ProductCatalog.IndexAnonymousExample` | MvcProject-dotnet8/Controllers/ProductController.cs:31-34 | a signed-in, non-admin caller whose user id is null is shown a product that records no creator, on one page |
| `OrderLifecycle.FindProduct` | MvcProject-dotnet8/Controllers/OrderController.cs:54-59 | the product found is in the catalogue and has the id; none is found iff no product has it |
| `OrderLifecycle.FindOrder` | MvcProject-dotnet8/Controllers/OrderController.cs:91-95 | the order found has the key; none is found iff no order has it |
| `OrderLifecycle.FindOwnOrder` | MvcProject-dotnet8/Controllers/OrderController.cs:108-115 | the order found has the key and belongs to the caller; none is found iff no such order exists |
| `OrderLifecycle.Place` | MvcProject-dotnet8/Controllers/OrderController.cs:44-85 | Invalid iff the quantity is outside 1..100; NotFound iff it is valid and no product has the id; both leave the table unchanged; Ok appends exactly one order with the product, the caller, the quantity, total = current price × quantity, the given date, Pending and active, and keeps every earlier row |
| `OrderLifecycle.Cancel` | MvcProject-dotnet8/Controllers/OrderController.cs:87-103 | Forbidden for a non-admin and NotFound for an unknown key, both without change; Ok whenever an admin names an existing key, and then the order becomes Cancelled and inactive whatever its status, every other order is unchanged, and no order's placement terms change |
| `OrderLifecycle.Confirm` | MvcProject-dotnet8/Controllers/OrderController.cs:105-127 | NotFound iff the caller has no order with the key (another user's order included); BadRequest iff the caller's order is not Pending; both without change; Ok moves that order from Pending to Received, keeps every active flag and every other order |
| `OrderLifecycle.PlacePreservesInvariant` | MvcProject-dotnet8/Controllers/OrderController.cs:61-70 | placing keeps the table invariant: distinct keys below the next identity, quantities in 1..100, active iff not cancelled |
| `OrderLifecycle.CancelPreservesInvariant` | MvcProject-dotnet8/Controllers/OrderController.cs:97-98 | cancelling keeps the table invariant |
| `OrderLifecycle.ConfirmPreservesInvariant` | MvcProject-dotnet8/Controllers/OrderController.cs:122 | confirming keeps the table invariant |
| `OrderLifecycle.RunKeepsTerms` | MvcProject-dotnet8/Controllers/OrderController.cs:61-123 | over any sequence of requests, under any later catalogue prices: the invariant holds, no order disappears, every order keeps its key, product, user, quantity, total and date, and its status only moves Pending→Received, anything→Cancelled |
| `OrderLifecycle.FindOwnOrderIsKeyed` | MvcProject-dotnet8/Controllers/OrderController.cs:109-110 | with distinct keys, the own-order lookup finds the keyed order iff it belongs to the caller |
| `OrderLifecycle.CancelledIsFinal` | MvcProject-dotnet8/Controllers/OrderController.cs:91-122 | after a successful cancel, no one can confirm receipt of that order |
| `OrderLifecycle.ConfirmOnce` | MvcProject-dotnet8/Controllers/OrderController.cs:117-122 | a second confirmation of a received order is a BadRequest without change |
| `OrderLifecycle.CancelIdempotent` | MvcProject-dotnet8/Controllers/OrderController.cs:91-99 | cancelling twice leaves the same table as cancelling once |
| `OrderLifecycle.NewestFirstIsPreorder` | MvcProject-dotnet8/Controllers/OrderController.cs:29 | newest-first by order date is a total preorder |
| `OrderLifecycle.NewestFirst` | MvcProject-dotnet8/Controllers/OrderController.cs:29 | the OrderByDescending(OrderDate) comparison, a definition with no contract of its own; `NewestFirstIsPreorder` proves it a total preorder |
| `OrderLifecycle.ActiveOrders` | MvcProject-dotnet8/Controllers/OrderController.cs:28 | the active orders, a definition with no contract of its own; `AdminIndex` and `AdminIndexListsActive` state what it keeps |
| `OrderLifecycle.OwnOrders` | MvcProject-dotnet8/Controllers/OrderController.cs:134 | the caller's orders under C# null equality, a definition with no contract of its own; `MyOrders` and `MyOrdersListsOwn` state what it keeps |
| `OrderLifecycle.AdminIndex` | MvcProject-dotnet8/Controllers/OrderController.cs:22-30 | a listing exactly for admins; it holds each active order as often as the table does, and no inactive one |
| `OrderLifecycle.MyOrders` | MvcProject-dotnet8/Controllers/OrderController.cs:129-136 | holds each order of the caller as often as the table does, and no other order |
| `OrderLifecycle.AdminIndexListsActive` | MvcProject-dotnet8/Controllers/OrderController.cs:22-30 | refused to non-admins; for an admin, exactly the active orders (each once), newest first; under the invariant, exactly the non-cancelled ones |
| `OrderLifecycle.MyOrdersListsOwn` | MvcProject-dotnet8/Controllers/OrderController.cs:129-136 | exactly the caller's orders, active or not, each once, newest first |
| `OrderLifecycle.PlaceOrderExample` | MvcProject-dotnet8.Tests/Controllers/OrderControllerTests.cs:17-43 | a 10.00 product ordered twice gives one Pending order of the caller with quantity 2 and total 20.00 |
| `OrderStore.OrderController.PlaceOrder` | MvcProject-dotnet8/Controllers/OrderController.cs:44-85 | appends to the table in place; answer and new table are those of `Place`, and the invariant is kept |
| `OrderStore.OrderController.CancelOrder` | MvcProject-dotnet8/Controllers/OrderController.cs:87-103 | overwrites the found order's status and flag in place; answer and new table are those of `Cancel` |
| `OrderStore.OrderController.ConfirmReceived` | MvcProject-dotnet8/Controllers/OrderController.cs:105-127 | overwrites the found order's status in place; answer and new table are those of `Confirm` |

## Left out

- Query.SortBy: its own contract states the permutation (`multiset(r) == multiset(s)`), `Query.SortBySorted` states sortedness, and neither states stability (equal names or dates keeping their stored order). The function is stable by construction. A database gives no tie order at all.
- The user-navigation fill-in loop of the order `Index` (OrderController.cs:33-39): it only loads display data.
- Persistence failure: the try/catch around `SaveChangesAsync` in `PlaceOrder` (OrderController.cs:72-84). Add-then-commit is treated as atomic and always successful. This includes totals beyond the decimal(18,2) range, which would fail there.
- Concurrency and optimistic-concurrency conflicts: each request runs alone.
- Presentation: TempData messages, redirects, view rendering, ViewBag values other than the pager's, `ViewBag.OrderCount`, and `Include` eager loading of categories and users. `Category` is a foreign key only.
- `ProductController.ProductExists` (ProductController.cs:80-83): a private helper that nothing calls.
- Page numbers below 1: what Skip does with a negative count depends on the provider. `Index` requires page ≥ 1.
- Negative wrapped offsets under SQL Server: the deployed provider (Program.cs) rejects a negative OFFSET, so a page above 429496730 whose offset wraps below zero fails the request there. The model gives LINQ's answer instead, the first page, which is what the in-memory provider shows.
- Text.NameLe, Text.Contains: names are compared by ordinal character order and searched by ordinal, case-sensitive substring. Neither is the database collation used by the deployed provider, nor LINQ to Objects' culture-sensitive default string comparison. Sorting and search results involving case or culture-specific characters can therefore differ from the source.
- `page` itself is taken as given. The model-binding default of 1 is not modelled.
- Edit permissions (`CanEdit`) and product creation or editing: nothing in ProductController or OrderController checks them; the Create and Edit actions the tests call do not exist in the controller.
- Deleting products and the cascade delete of their permissions: these live in the schema, not in the core.
- A non-negative price: nothing in the code enforces it, so prices are any integer.
- AdminController (user and role management, audit logging), AuthController, ProductApiController, Program.cs, SeedData.cs, the DbContext and the migrations: framework wiring outside the core. The identity subsystem's user and role stores are not part of this model.
- Float page arithmetic: `Math.Ceiling(totalItems / 5.0)` is modelled as integer ceiling division, which agrees for every item count.
