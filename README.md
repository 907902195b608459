# Order repository: aggregate-to-row mapping

This project models the Sequelize order repository of a small DDD
e-commerce example (`OrderRepository` in
`src/infrastructure/order/repository/sequilize/order.repository.ts`) and proves
what its tests rely on.

The repository stores an `Order` aggregate (id, customer id, ordered
`OrderItem`s; the total is derived from the items) in two tables:

- `orders(id, customer_id, total)`;
- `order_items(id, order_id, name, price, product_id, quantity)`.

Both tables are modelled as sequences of rows in storage order. Sequences
rather than maps keep creation order explicit, and `findAll` must preserve it.

- `checkout.dfy` (module `Checkout`) holds the aggregate: `OrderItem`, `Order`,
  `Total` as the sum of price × quantity, and `AddItem`.
- `rows.dfy` (module `OrderRows`) holds the row datatypes and the pure
  functions. These are the encoding written by `create`, the decoding
  `transformModel`, the lookups behind `find` and `findAll`, the
  `update ... where id` of the order row and the upsert of item rows, plus the
  lemmas about them.
- `repository.dfy` (module `Repository`) holds the class `OrderRepository`.
  Its fields `orders` and `items` are the two tables. `Create` appends to them.
  `Update` loops over the order's items and upserts one row per step, like the
  source's `forEach`. `Find` and `FindAll` (`order.repository.ts:50-62`) read the tables by delegating to `OrderRows.Find` and `OrderRows.FindAll`; their properties are the rows for those functions. The file ends with
  the four test scenarios of `order.repository.spec.ts`. Three are client
  methods on a fresh repository; the list scenario is a lemma over the tables
  that its two creates write.
- `wrappers.dfy` holds `Option`.

`Valid()` is the primary-key invariant: order ids are unique and item ids are
unique. `Create` and `Update` both preserve it.

The model follows the code in three places where a reader might expect more of a repository:

- `update` changes only `customer_id` on the order row, never `total`. After an
  item is added and the order updated, the stored total is stale (20 where the
  order's total is 30). `find` still returns the right order because
  `transformModel` rebuilds it from the items (`UpdateOrderScenario`,
  `UpdateKeepsStoredTotal`).
- `update` only upserts; it never deletes. Item rows of the order whose ids are
  no longer among its items stay, and `find` keeps returning them
  (`UpdateKeepsStaleItems`). Nothing deletes those rows.
- `update` on an unknown order id does not fail. The `where` clause matches no
  row, so the order table is unchanged, and the item upserts still happen.

## Model

| member | source | states |
|---|---|---|
| Checkout.AddItem | src/infrastructure/order/repository/sequilize/order.repository.spec.ts:94-96 | adding an item keeps id and customer id, appends the item last, and raises the total by exactly that item's price × quantity |
| Checkout.ItemsTotalAppend | src/infrastructure/order/repository/sequilize/order.repository.spec.ts:88-101 | the derived total of items followed by one more item is the old total plus that item's subtotal (20 + 10 = 30 in the update test) |
| OrderRows.ItemRowsOf | src/infrastructure/order/repository/sequilize/order.repository.ts:14-23 | create writes one item row per item, in item order, carrying its id, name, price, product_id = productId and quantity, with order_id set to the order's id |
| OrderRows.TransformModel | src/infrastructure/order/repository/sequilize/order.repository.ts:64-73 | the rebuilt Order takes id and customer_id from the row and one item per loaded item row, field for field (product_id → productId), preserving count and order |
| OrderRows.TransformModelInvertsEncoding | src/infrastructure/order/repository/sequilize/order.repository.ts:9-25 | decoding the order row and item rows that create writes gives back exactly the original Order |
| OrderRows.TransformModelTotal | src/infrastructure/order/repository/sequilize/order.repository.ts:72 | the total of a rebuilt order is the sum over its item rows, independent of the total stored in the order row |
| OrderRows.ItemsOfOrder | src/infrastructure/order/repository/sequilize/order.repository.ts:53 | the `items` association loads exactly the item rows whose order_id is the order's id (membership in both directions) and no more rows than are stored |
| OrderRows.FindOne | src/infrastructure/order/repository/sequilize/order.repository.ts:51-52 | the lookup by id yields nothing iff no order row has that id, and otherwise a stored row with that id |
| OrderRows.Find | src/infrastructure/order/repository/sequilize/order.repository.ts:50-55 | find fails (None) iff no order row has the id; otherwise it yields an order with that id and one item per loaded item row |
| OrderRows.FindAll | src/infrastructure/order/repository/sequilize/order.repository.ts:57-62 | findAll yields one order per order row, in storage order, with that row's id and customer id |
| OrderRows.FindAllAgreesWithFind | src/infrastructure/order/repository/sequilize/order.repository.ts:50-62 | with unique order ids, the k-th order of findAll is exactly what find returns for the k-th row's id |
| OrderRows.CreateKeepsKeysUnique | src/infrastructure/order/repository/sequilize/order.repository.ts:9-25 | creating an order with new keys keeps the order ids and item ids unique |
| OrderRows.CreateKeepsReferenced | src/infrastructure/order/repository/sequilize/order.repository.ts:22-24 | after create, every item row still points at a stored order row |
| OrderRows.NoItemsForUnknownOrder | src/infrastructure/order/repository/sequilize/order.repository.ts:53 | when every item row points at a stored order, an id with no order row loads no item rows |
| OrderRows.CreateThenFind | src/infrastructure/order/repository/sequilize/order.repository.spec.ts:78-82 | round trip: after create(o) on a store with no order row o.id and no item row with order_id = o.id, find(o.id) returns exactly o: same id, customer id and items in order, hence the same total |
| OrderRows.FindAllAfterCreate | src/infrastructure/order/repository/sequilize/order.repository.spec.ts:113-124 | on a store with no order row o.id and no item row with order_id = o.id, findAll after create(o) is the previous findAll result followed by o, so earlier results are a prefix |
| OrderRows.SetCustomerWhere | src/infrastructure/order/repository/sequilize/order.repository.ts:29-36 | the order update changes customer_id on the rows with that id only; ids, totals and all other rows are unchanged |
| OrderRows.FindOneSetCustomer | src/infrastructure/order/repository/sequilize/order.repository.ts:29-36 | after the order update, the lookup by id yields the same row as before with the new customer_id, or nothing if there was none |
| OrderRows.UpdateKeepsStoredTotal | src/infrastructure/order/repository/sequilize/order.repository.ts:29-33 | update leaves the existence of the order row and its stored total as they were |
| OrderRows.Upsert | src/infrastructure/order/repository/sequilize/order.repository.ts:38-45 | the upserted row is stored; a new id is appended as a new last row; rows with other ids keep their place and contents; nothing is removed |
| OrderRows.UpsertOverwrites | src/infrastructure/order/repository/sequilize/order.repository.ts:38-45 | under a unique item key, upserting an existing id overwrites that one row in place |
| OrderRows.UpsertKeepsUnique | src/infrastructure/order/repository/sequilize/order.repository.ts:38-45 | upsert keeps item ids unique |
| OrderRows.UpsertStored | src/infrastructure/order/repository/sequilize/order.repository.ts:38-45 | under a unique item key, upserting a row that is already stored changes nothing |
| OrderRows.UpsertAll | src/infrastructure/order/repository/sequilize/order.repository.ts:37-46 | the item upserts of update, run one after another in item order, never shrink the table |
| OrderRows.UpsertAllKeepsOthers | src/infrastructure/order/repository/sequilize/order.repository.ts:37-46 | update never removes or alters an item row whose id is not among the order's items: it stays at its position unchanged |
| OrderRows.UpsertAllKeepsUnique | src/infrastructure/order/repository/sequilize/order.repository.ts:37-46 | the item upserts of update keep item ids unique |
| OrderRows.UpsertAllStoresItems | src/infrastructure/order/repository/sequilize/order.repository.ts:37-46 | after update, every item of the order (distinct ids) is stored with its fields and order_id = the order's id |
| OrderRows.UpsertAllFresh | src/infrastructure/order/repository/sequilize/order.repository.ts:37-46 | upserting items whose ids are distinct from each other and all new to the table appends their rows at the end, in item order |
| OrderRows.UpdateKeepsStaleItems | src/infrastructure/order/repository/sequilize/order.repository.ts:37-46 | update never deletes: an item row of the order whose id is not among its current items is still loaded afterwards |
| OrderRows.UpdateKeepsReferenced | src/infrastructure/order/repository/sequilize/order.repository.ts:28-47 | updating an existing order keeps every item row pointing at a stored order row |
| OrderRows.UpdateThenFind | src/infrastructure/order/repository/sequilize/order.repository.spec.ts:85-101 | when o's order row exists, item ids are unique in the table and distinct among o's items, the item rows stored for o are exactly the rows of its first p items and the rest have new ids, update(o) then find(o.id) returns exactly o with all items in order |
| Repository.OrderRepository.Create | src/infrastructure/order/repository/sequilize/order.repository.ts:8-26 | appends exactly one order row (id, customer_id, total) and the order's item rows, changes nothing else and keeps the keys unique; when every item row pointed at a stored order, that still holds and find(o.id) returns o |
| Repository.OrderRepository.Update | src/infrastructure/order/repository/sequilize/order.repository.ts:28-48 | the order rows become the customer_id update of the old ones, and the item rows become the old rows with every item upserted in order; keys stay unique |
| Repository.CreateOrderScenario | src/infrastructure/order/repository/sequilize/order.repository.spec.ts:39-69 | creating the one-item order writes the row ("123", "123", 20) and the item row with order_id "123" and product_id "123" |
| Repository.FindOrderScenario | src/infrastructure/order/repository/sequilize/order.repository.spec.ts:71-83 | find after create returns the created order |
| Repository.UpdateOrderScenario | src/infrastructure/order/repository/sequilize/order.repository.spec.ts:85-102 | after adding a second item and updating, find returns the order with both items and total 30, while the stored total stays 20 |
| Repository.ListAllOrdersScenario | src/infrastructure/order/repository/sequilize/order.repository.spec.ts:104-125 | findAll returns [order] after the first create and [order, order2] after the second |

## Left out

- Repository.OrderRepository.Create: duplicate order or item ids are a precondition (`CanCreate`), not an error result. The database's primary-key rejection comes from the table definitions, which are not part of this model.
- Repository.OrderRepository.Update: the item upserts are not awaited inside `forEach` in the source. The model runs them one after another, and all of them complete before `Update` returns.
- OrderRows.UpdateThenFind: the find-level round trip covers stored items whose rows already match o's first p items; an existing item edited in place is covered only at row level, by `UpsertOverwrites` and `UpsertAllStoresItems`.
- OrderRows.Find: the exception that `transformModel` raises on a missing row is modelled as `None`.
- Foreign-key checks on `order_items.order_id` are not modelled. `Referenced` is proved as a separate invariant of create and of updates of existing orders. Without it, item rows written by an update of an unknown order id are orphans that a later create of that id loads along with its own; that is why `Create` promises the round trip only when `Referenced` held before.
- Row order of the `items` association and of `findAll` is taken to be storage (insertion) order. The queries have no ORDER BY; the tests rely on this order.
- Prices and quantities are integers; the source's JavaScript numbers are floating point.
- Order and OrderItem constructor validation is left out: the Order and OrderItem constructors are not modelled.
- Sequelize and SQLite setup, model registration, `sync` and `close` are left out. The in-memory row sequences replace them.
- Promise chaining is left out; every operation completes before the next one starts.
- The customer and product repositories are left out. They are only test fixtures.
- `Customer` and the domain-event dispatcher (`customer.ts`, `event-dispatcher.ts`, the handlers) are out of scope.
