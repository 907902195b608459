/**
 * The relational side of the order repository: the two tables `orders` and
 * `order_items` as sequences of rows in storage order, the encoding of an
 * Order into rows (what `create` writes), the decoding `transformModel`, and
 * the row-level operations the repository asks of the storage engine: the
 * lookup by primary key, the `items` association, the `update ... where id`
 * of an order row and the upsert of an item row.
 */
module OrderRows {
  import opened Wrappers
  import opened Checkout

  /** A row of `orders`. */
  datatype OrderRow = OrderRow(id: string, customerId: string, total: int)

  /** A row of `order_items`; `orderId` is the `order_id` foreign key. */
  datatype ItemRow = ItemRow(id: string, orderId: string, name: string, price: int, productId: string, quantity: int)

  /** An order row together with the item rows loaded through its `items` association. */
  datatype OrderModel = OrderModel(row: OrderRow, items: seq<ItemRow>)

  // ---------------------------------------------------------------------
  // Keys

  predicate HasOrderRow(orders: seq<OrderRow>, id: string)
  {
    exists k :: 0 <= k < |orders| && orders[k].id == id
  }

  predicate HasItemRow(rows: seq<ItemRow>, id: string)
  {
    exists k :: 0 <= k < |rows| && rows[k].id == id
  }

  /** `id` is the id of one of `items`. */
  predicate IdAmong(id: string, items: seq<OrderItem>)
  {
    exists j :: 0 <= j < |items| && items[j].id == id
  }

  /** The primary key of `orders`. */
  predicate UniqueOrderIds(orders: seq<OrderRow>)
  {
    forall i, j :: 0 <= i < j < |orders| ==> orders[i].id != orders[j].id
  }

  /** The primary key of `order_items`. */
  predicate UniqueItemIds(rows: seq<ItemRow>)
  {
    forall i, j :: 0 <= i < j < |rows| ==> rows[i].id != rows[j].id
  }

  predicate DistinctItemIds(items: seq<OrderItem>)
  {
    forall i, j :: 0 <= i < j < |items| ==> items[i].id != items[j].id
  }

  /** Every item row points at a stored order row. */
  predicate Referenced(orders: seq<OrderRow>, rows: seq<ItemRow>)
  {
    forall k :: 0 <= k < |rows| ==> HasOrderRow(orders, rows[k].orderId)
  }

  // ---------------------------------------------------------------------
  // Encoding (create) and decoding (transformModel)

  /** The order row `create` writes: id, customer_id and the total. */
  function OrderRowOf(o: Order): OrderRow
  {
    OrderRow(o.id, o.customerId, Total(o))
  }

  /** The item row written for `item` inside the order `orderId`. */
  function ItemToRow(orderId: string, item: OrderItem): ItemRow
  {
    ItemRow(item.id, orderId, item.name, item.price, item.productId, item.quantity)
  }

  /** `entity.items.map(...)`, with `order_id` filled in by the nested include. */
  function ItemRowsOf(orderId: string, items: seq<OrderItem>): (r: seq<ItemRow>)
    ensures |r| == |items|
    ensures forall k :: 0 <= k < |items| ==>
              r[k].id == items[k].id && r[k].orderId == orderId && r[k].name == items[k].name &&
              r[k].price == items[k].price && r[k].productId == items[k].productId &&
              r[k].quantity == items[k].quantity
  {
    seq(|items|, k requires 0 <= k < |items| => ItemToRow(orderId, items[k]))
  }

  lemma ItemRowsOfConcat(orderId: string, a: seq<OrderItem>, b: seq<OrderItem>)
    ensures ItemRowsOf(orderId, a + b) == ItemRowsOf(orderId, a) + ItemRowsOf(orderId, b)
  {
    var l, r := ItemRowsOf(orderId, a + b), ItemRowsOf(orderId, a) + ItemRowsOf(orderId, b);
    forall k | 0 <= k < |l| ensures l[k] == r[k] {
      if k < |a| {
        assert (a + b)[k] == a[k];
      } else {
        assert (a + b)[k] == b[k - |a|];
      }
    }
  }

  function RowToItem(row: ItemRow): OrderItem
  {
    OrderItem(row.id, row.name, row.price, row.productId, row.quantity)
  }

  /**
   * `transformModel`: rebuilds the Order from the row's id and customer_id and
   * from its loaded item rows, field by field and in the loaded order. The
   * stored total is not read.
   */
  function TransformModel(m: OrderModel): (r: Order)
    ensures r.id == m.row.id && r.customerId == m.row.customerId
    ensures |r.items| == |m.items|
    ensures forall k :: 0 <= k < |m.items| ==>
              r.items[k].id == m.items[k].id && r.items[k].name == m.items[k].name &&
              r.items[k].price == m.items[k].price && r.items[k].productId == m.items[k].productId &&
              r.items[k].quantity == m.items[k].quantity
  {
    Order(m.row.id, m.row.customerId, seq(|m.items|, k requires 0 <= k < |m.items| => RowToItem(m.items[k])))
  }

  /** Decoding undoes encoding: the rows `create` writes give back the Order. */
  lemma TransformModelInvertsEncoding(o: Order)
    ensures TransformModel(OrderModel(OrderRowOf(o), ItemRowsOf(o.id, o.items))) == o
  {
    var r := TransformModel(OrderModel(OrderRowOf(o), ItemRowsOf(o.id, o.items)));
    assert r.items == o.items;
  }

  /** The total of a rebuilt order comes from its item rows, whatever total its row stores. */
  lemma {:induction false} TransformModelTotal(m: OrderModel)
    ensures Total(TransformModel(m)) == RowsTotal(m.items)
    decreases |m.items|
  {
    if m.items != [] {
      var rest := m.(items := m.items[1..]);
      TransformModelTotal(rest);
      assert TransformModel(m).items[1..] == TransformModel(rest).items;
    }
  }

  /** The sum of price times quantity over item rows. */
  function RowsTotal(rows: seq<ItemRow>): int
  {
    if rows == [] then 0 else rows[0].price * rows[0].quantity + RowsTotal(rows[1..])
  }

  // ---------------------------------------------------------------------
  // The `items` association: item rows of one order, in storage order

  function ItemsOfOrder(rows: seq<ItemRow>, orderId: string): (r: seq<ItemRow>)
    ensures |r| <= |rows|
    ensures forall x :: x in r <==> x in rows && x.orderId == orderId
  {
    if rows == [] then []
    else if rows[0].orderId == orderId then [rows[0]] + ItemsOfOrder(rows[1..], orderId)
    else ItemsOfOrder(rows[1..], orderId)
  }

  lemma {:induction false} ItemsOfOrderConcat(a: seq<ItemRow>, b: seq<ItemRow>, orderId: string)
    ensures ItemsOfOrder(a + b, orderId) == ItemsOfOrder(a, orderId) + ItemsOfOrder(b, orderId)
  {
    if a == [] {
      assert a + b == b;
    } else {
      assert (a + b)[1..] == a[1..] + b;
      ItemsOfOrderConcat(a[1..], b, orderId);
    }
  }

  /** The rows `create` writes for an order are exactly the rows loaded for it. */
  lemma ItemsOfOrderOwnRows(orderId: string, items: seq<OrderItem>)
    ensures ItemsOfOrder(ItemRowsOf(orderId, items), orderId) == ItemRowsOf(orderId, items)
    decreases |items|
  {
    if items != [] {
      var rows := ItemRowsOf(orderId, items);
      assert rows[1..] == ItemRowsOf(orderId, items[1..]);
      ItemsOfOrderOwnRows(orderId, items[1..]);
    }
  }

  /** No item row is loaded for an order id that none of the rows carries. */
  lemma {:induction false} ItemsOfOrderNone(rows: seq<ItemRow>, orderId: string)
    requires forall k :: 0 <= k < |rows| ==> rows[k].orderId != orderId
    ensures ItemsOfOrder(rows, orderId) == []
  {
    if rows != [] {
      ItemsOfOrderNone(rows[1..], orderId);
    }
  }

  /** Rows written for one order are not loaded for another. */
  lemma ItemsOfOrderOtherRows(orderId: string, items: seq<OrderItem>, other: string)
    requires other != orderId
    ensures ItemsOfOrder(ItemRowsOf(orderId, items), other) == []
  {
    ItemsOfOrderNone(ItemRowsOf(orderId, items), other);
  }

  /** With every item row pointing at a stored order, an unknown order id has no item rows. */
  lemma NoItemsForUnknownOrder(orders: seq<OrderRow>, rows: seq<ItemRow>, id: string)
    requires Referenced(orders, rows)
    requires !HasOrderRow(orders, id)
    ensures ItemsOfOrder(rows, id) == []
  {
    ItemsOfOrderNone(rows, id);
  }

  // ---------------------------------------------------------------------
  // Queries: find and findAll

  /** `findOne({ where: { id } })`: the first order row with that id. */
  function FindOne(orders: seq<OrderRow>, id: string): (r: Option<OrderRow>)
    ensures r.None? <==> !HasOrderRow(orders, id)
    ensures r.Some? ==> r.value in orders && r.value.id == id
  {
    if orders == [] then None
    else if orders[0].id == id then Some(orders[0])
    else
      var r := FindOne(orders[1..], id);
      assert HasOrderRow(orders, id) ==> HasOrderRow(orders[1..], id) by {
        if HasOrderRow(orders, id) {
          var k :| 0 <= k < |orders| && orders[k].id == id;
          assert orders[1..][k - 1].id == id;
        }
      }
      r
  }

  /** An order row loaded with its item rows. */
  function Load(row: OrderRow, rows: seq<ItemRow>): OrderModel
  {
    OrderModel(row, ItemsOfOrder(rows, row.id))
  }

  /**
   * `find(id)`: the rebuilt Order of the first row with that id. An absent id
   * gives None: `findOne` yields null and `transformModel` fails on it.
   */
  function Find(orders: seq<OrderRow>, rows: seq<ItemRow>, id: string): (r: Option<Order>)
    ensures r.None? <==> !HasOrderRow(orders, id)
    ensures r.Some? ==> r.value.id == id && |r.value.items| == |ItemsOfOrder(rows, id)|
  {
    match FindOne(orders, id)
    case None => None
    case Some(row) => Some(TransformModel(Load(row, rows)))
  }

  /** `findAll()`: one rebuilt Order per order row, in storage order. */
  function FindAll(orders: seq<OrderRow>, rows: seq<ItemRow>): (r: seq<Order>)
    ensures |r| == |orders|
    ensures forall k :: 0 <= k < |orders| ==> r[k].id == orders[k].id && r[k].customerId == orders[k].customerId
  {
    seq(|orders|, k requires 0 <= k < |orders| => TransformModel(Load(orders[k], rows)))
  }

  lemma {:induction false} FindOneUnique(orders: seq<OrderRow>, k: nat)
    requires UniqueOrderIds(orders)
    requires k < |orders|
    ensures FindOne(orders, orders[k].id) == Some(orders[k])
  {
    if k > 0 {
      assert orders[0].id != orders[k].id;
      assert orders[1..][k - 1] == orders[k];
      FindOneUnique(orders[1..], k - 1);
    }
  }

  /** With unique order ids, `findAll` and `find` agree on every stored order. */
  lemma FindAllAgreesWithFind(orders: seq<OrderRow>, rows: seq<ItemRow>, k: nat)
    requires UniqueOrderIds(orders)
    requires k < |orders|
    ensures Find(orders, rows, orders[k].id) == Some(FindAll(orders, rows)[k])
  {
    FindOneUnique(orders, k);
  }

  lemma {:induction false} FindOneAppend(orders: seq<OrderRow>, row: OrderRow)
    requires !HasOrderRow(orders, row.id)
    ensures FindOne(orders + [row], row.id) == Some(row)
  {
    if orders != [] {
      assert orders[0].id != row.id;
      assert (orders + [row])[1..] == orders[1..] + [row];
      FindOneAppend(orders[1..], row);
    }
  }

  // ---------------------------------------------------------------------
  // create

  /** The keys `create` writes are all new: the primary keys of both tables stay unique. */
  predicate CanCreate(orders: seq<OrderRow>, rows: seq<ItemRow>, o: Order)
  {
    !HasOrderRow(orders, o.id) && DistinctItemIds(o.items) &&
    forall j :: 0 <= j < |o.items| ==> !HasItemRow(rows, o.items[j].id)
  }

  /** `create` keeps both primary keys unique. */
  lemma CreateKeepsKeysUnique(orders: seq<OrderRow>, rows: seq<ItemRow>, o: Order)
    requires UniqueOrderIds(orders) && UniqueItemIds(rows)
    requires CanCreate(orders, rows, o)
    ensures UniqueOrderIds(orders + [OrderRowOf(o)])
    ensures UniqueItemIds(rows + ItemRowsOf(o.id, o.items))
  {
    var os := orders + [OrderRowOf(o)];
    forall i, j | 0 <= i < j < |os| ensures os[i].id != os[j].id {
      if j == |orders| {
        assert os[i] == orders[i];
      }
    }
    var written := ItemRowsOf(o.id, o.items);
    var rs := rows + written;
    forall i, j | 0 <= i < j < |rs| ensures rs[i].id != rs[j].id {
      if i >= |rows| {
        assert rs[i] == written[i - |rows|] && rs[j] == written[j - |rows|];
      } else if j >= |rows| {
        assert rs[j].id == o.items[j - |rows|].id;
        assert !HasItemRow(rows, o.items[j - |rows|].id);
      }
    }
  }

  /** `create` keeps every item row pointing at a stored order. */
  lemma CreateKeepsReferenced(orders: seq<OrderRow>, rows: seq<ItemRow>, o: Order)
    requires Referenced(orders, rows)
    ensures Referenced(orders + [OrderRowOf(o)], rows + ItemRowsOf(o.id, o.items))
  {
    var os := orders + [OrderRowOf(o)];
    var rs := rows + ItemRowsOf(o.id, o.items);
    forall k | 0 <= k < |rs| ensures HasOrderRow(os, rs[k].orderId) {
      if k < |rows| {
        assert rs[k] == rows[k];
        var m :| 0 <= m < |orders| && orders[m].id == rs[k].orderId;
        assert os[m] == orders[m];
      } else {
        assert os[|orders|].id == rs[k].orderId;
      }
    }
  }

  /** Round trip: after `create(o)` on a store without that order, `find(o.id)` gives back `o`. */
  lemma CreateThenFind(orders: seq<OrderRow>, rows: seq<ItemRow>, o: Order)
    requires !HasOrderRow(orders, o.id)
    requires ItemsOfOrder(rows, o.id) == []
    ensures Find(orders + [OrderRowOf(o)], rows + ItemRowsOf(o.id, o.items), o.id) == Some(o)
  {
    var written := ItemRowsOf(o.id, o.items);
    FindOneAppend(orders, OrderRowOf(o));
    ItemsOfOrderConcat(rows, written, o.id);
    ItemsOfOrderOwnRows(o.id, o.items);
    assert ItemsOfOrder(rows + written, o.id) == written;
    TransformModelInvertsEncoding(o);
  }

  /** `findAll` after `create(o)` is the earlier result followed by `o`. */
  lemma FindAllAfterCreate(orders: seq<OrderRow>, rows: seq<ItemRow>, o: Order)
    requires !HasOrderRow(orders, o.id)
    requires ItemsOfOrder(rows, o.id) == []
    ensures FindAll(orders + [OrderRowOf(o)], rows + ItemRowsOf(o.id, o.items)) == FindAll(orders, rows) + [o]
  {
    var os := orders + [OrderRowOf(o)];
    var written := ItemRowsOf(o.id, o.items);
    var after := FindAll(os, rows + written);
    var before := FindAll(orders, rows);
    forall k | 0 <= k < |orders| ensures after[k] == before[k] {
      assert os[k] == orders[k];
      assert orders[k].id != o.id;
      ItemsOfOrderConcat(rows, written, orders[k].id);
      ItemsOfOrderOtherRows(o.id, o.items, orders[k].id);
    }
    ItemsOfOrderConcat(rows, written, o.id);
    ItemsOfOrderOwnRows(o.id, o.items);
    TransformModelInvertsEncoding(o);
    assert after[|orders|] == o;
  }

  // ---------------------------------------------------------------------
  // update

  /** `OrderModel.update({ customer_id }, { where: { id } })`: only customer_id of the matching rows changes. */
  function SetCustomerWhere(orders: seq<OrderRow>, id: string, customerId: string): (r: seq<OrderRow>)
    ensures |r| == |orders|
    ensures forall k :: 0 <= k < |orders| ==> r[k].id == orders[k].id && r[k].total == orders[k].total
    ensures forall k :: 0 <= k < |orders| ==>
              r[k].customerId == (if orders[k].id == id then customerId else orders[k].customerId)
  {
    if orders == [] then []
    else
      var head := if orders[0].id == id then orders[0].(customerId := customerId) else orders[0];
      [head] + SetCustomerWhere(orders[1..], id, customerId)
  }

  lemma {:induction false} FindOneSetCustomer(orders: seq<OrderRow>, id: string, customerId: string)
    ensures FindOne(SetCustomerWhere(orders, id, customerId), id) ==
            match FindOne(orders, id)
            case None => None
            case Some(row) => Some(row.(customerId := customerId))
  {
    if orders != [] && orders[0].id != id {
      var r := SetCustomerWhere(orders, id, customerId);
      assert r[1..] == SetCustomerWhere(orders[1..], id, customerId);
      FindOneSetCustomer(orders[1..], id, customerId);
    }
  }

  /**
   * `OrderItemModel.upsert(row)`: the row with the same primary key is
   * overwritten, or the row is added at the end when no row has that key.
   */
  function Upsert(rows: seq<ItemRow>, row: ItemRow): (r: seq<ItemRow>)
    ensures row in r
    ensures HasItemRow(rows, row.id) ==> |r| == |rows|
    ensures !HasItemRow(rows, row.id) ==> r == rows + [row]
    ensures forall k :: 0 <= k < |rows| && rows[k].id != row.id ==> r[k] == rows[k]
  {
    if rows == [] then [row]
    else if rows[0].id == row.id then [row] + rows[1..]
    else
      var rest := Upsert(rows[1..], row);
      assert HasItemRow(rows, row.id) ==> HasItemRow(rows[1..], row.id) by {
        if HasItemRow(rows, row.id) {
          var k :| 0 <= k < |rows| && rows[k].id == row.id;
          assert rows[1..][k - 1].id == row.id;
        }
      }
      assert !HasItemRow(rows, row.id) ==> !HasItemRow(rows[1..], row.id) by {
        if HasItemRow(rows[1..], row.id) {
          var k :| 0 <= k < |rows[1..]| && rows[1..][k].id == row.id;
          assert rows[k + 1].id == row.id;
        }
      }
      [rows[0]] + rest
  }

  /** Under a unique primary key, upserting an existing id overwrites that row in place. */
  lemma {:induction false} UpsertOverwrites(rows: seq<ItemRow>, row: ItemRow, k: nat)
    requires UniqueItemIds(rows)
    requires k < |rows| && rows[k].id == row.id
    ensures Upsert(rows, row) == rows[k := row]
  {
    if k > 0 {
      assert rows[0].id != rows[k].id;
      assert rows[1..][k - 1] == rows[k];
      UpsertOverwrites(rows[1..], row, k - 1);
      assert [rows[0]] + rows[1..][k - 1 := row] == rows[k := row];
    }
  }

  /** Upsert keeps the item primary key unique. */
  lemma UpsertKeepsUnique(rows: seq<ItemRow>, row: ItemRow)
    requires UniqueItemIds(rows)
    ensures UniqueItemIds(Upsert(rows, row))
  {
    if HasItemRow(rows, row.id) {
      var k :| 0 <= k < |rows| && rows[k].id == row.id;
      UpsertOverwrites(rows, row, k);
    } else {
      var r := rows + [row];
      forall i, j | 0 <= i < j < |r| ensures r[i].id != r[j].id {
        if j == |rows| {
          assert r[i] == rows[i];
        }
      }
    }
  }

  /** Upserting a row that is already stored, under a unique primary key, changes nothing. */
  lemma UpsertStored(rows: seq<ItemRow>, row: ItemRow)
    requires UniqueItemIds(rows)
    requires row in rows
    ensures Upsert(rows, row) == rows
  {
    var k :| 0 <= k < |rows| && rows[k] == row;
    UpsertOverwrites(rows, row, k);
    assert rows[k := row] == rows;
  }

  /**
   * The `forEach` of `update` with its upserts run one after another: the
   * items of the order, in order, each upserted with `order_id = orderId`.
   */
  function UpsertAll(rows: seq<ItemRow>, orderId: string, items: seq<OrderItem>): (r: seq<ItemRow>)
    ensures |r| >= |rows|
    decreases |items|
  {
    if items == [] then rows
    else Upsert(UpsertAll(rows, orderId, items[..|items| - 1]), ItemToRow(orderId, items[|items| - 1]))
  }

  /**
   * One unfolding of UpsertAll, kept as a lemma only so that UpsertAllFresh can
   * use it without carrying the definition's other unfoldings.
   */
  lemma UpsertAllLast(rows: seq<ItemRow>, orderId: string, items: seq<OrderItem>)
    requires items != []
    ensures UpsertAll(rows, orderId, items) ==
            Upsert(UpsertAll(rows, orderId, items[..|items| - 1]), ItemToRow(orderId, items[|items| - 1]))
  {
  }

  /** The upserts of `update` leave every row whose id is not among the items in place and unchanged. */
  lemma {:induction false} UpsertAllKeepsOthers(rows: seq<ItemRow>, orderId: string, items: seq<OrderItem>, k: nat)
    requires k < |rows| && !IdAmong(rows[k].id, items)
    ensures UpsertAll(rows, orderId, items)[k] == rows[k]
    decreases |items|
  {
    if items != [] {
      var n := |items| - 1;
      assert !IdAmong(rows[k].id, items[..n]) by {
        forall j | 0 <= j < n ensures items[..n][j].id != rows[k].id {
          assert items[..n][j] == items[j];
        }
      }
      UpsertAllKeepsOthers(rows, orderId, items[..n], k);
      assert items[n].id != rows[k].id;
    }
  }

  /** Upserting in two batches is upserting the concatenation. */
  lemma {:induction false} UpsertAllConcat(rows: seq<ItemRow>, orderId: string, a: seq<OrderItem>, b: seq<OrderItem>)
    ensures UpsertAll(rows, orderId, a + b) == UpsertAll(UpsertAll(rows, orderId, a), orderId, b)
    decreases |b|
  {
    if b == [] {
      assert a + b == a;
    } else {
      assert (a + b)[..|a + b| - 1] == a + b[..|b| - 1];
      assert (a + b)[|a + b| - 1] == b[|b| - 1];
      UpsertAllConcat(rows, orderId, a, b[..|b| - 1]);
    }
  }

  /** `update` keeps the item primary key unique. */
  lemma {:induction false} UpsertAllKeepsUnique(rows: seq<ItemRow>, orderId: string, items: seq<OrderItem>)
    requires UniqueItemIds(rows)
    ensures UniqueItemIds(UpsertAll(rows, orderId, items))
    decreases |items|
  {
    if items != [] {
      UpsertAllKeepsUnique(rows, orderId, items[..|items| - 1]);
      UpsertKeepsUnique(UpsertAll(rows, orderId, items[..|items| - 1]), ItemToRow(orderId, items[|items| - 1]));
    }
  }

  /** After `update`, every item of the order is stored with its fields and `order_id = orderId`. */
  lemma {:induction false} UpsertAllStoresItems(rows: seq<ItemRow>, orderId: string, items: seq<OrderItem>)
    requires DistinctItemIds(items)
    ensures forall j :: 0 <= j < |items| ==> ItemToRow(orderId, items[j]) in UpsertAll(rows, orderId, items)
    decreases |items|
  {
    if items != [] {
      var n := |items| - 1;
      var prefix := items[..n];
      UpsertAllStoresItems(rows, orderId, prefix);
      var before := UpsertAll(rows, orderId, prefix);
      var after := Upsert(before, ItemToRow(orderId, items[n]));
      forall j | 0 <= j < |items| ensures ItemToRow(orderId, items[j]) in after {
        if j < n {
          assert prefix[j] == items[j];
          var k :| 0 <= k < |before| && before[k] == ItemToRow(orderId, items[j]);
          assert items[j].id != items[n].id;
          assert after[k] == before[k];
        }
      }
    }
  }

  /** Upserting rows that are already stored changes nothing. */
  lemma {:induction false} UpsertAllStored(rows: seq<ItemRow>, orderId: string, items: seq<OrderItem>)
    requires UniqueItemIds(rows)
    requires forall j :: 0 <= j < |items| ==> ItemToRow(orderId, items[j]) in rows
    ensures UpsertAll(rows, orderId, items) == rows
    decreases |items|
  {
    if items != [] {
      var n := |items| - 1;
      UpsertAllStored(rows, orderId, items[..n]);
      UpsertStored(rows, ItemToRow(orderId, items[n]));
    }
  }

  /** An id that is new to the table and to the items just written is new to the result. */
  lemma FreshAfterWrite(rows: seq<ItemRow>, orderId: string, items: seq<OrderItem>, id: string)
    requires !HasItemRow(rows, id)
    requires forall j :: 0 <= j < |items| ==> items[j].id != id
    ensures !HasItemRow(rows + ItemRowsOf(orderId, items), id)
  {
    var all := rows + ItemRowsOf(orderId, items);
    forall k | 0 <= k < |all| ensures all[k].id != id {
      if k < |rows| {
        assert all[k] == rows[k];
      }
    }
  }

  /** Upserting items whose ids are all new appends their rows, in order. */
  lemma {:induction false} UpsertAllFresh(rows: seq<ItemRow>, orderId: string, items: seq<OrderItem>)
    requires DistinctItemIds(items)
    requires forall j :: 0 <= j < |items| ==> !HasItemRow(rows, items[j].id)
    ensures UpsertAll(rows, orderId, items) == rows + ItemRowsOf(orderId, items)
    decreases |items|
  {
    if items != [] {
      var n := |items| - 1;
      var prefix := items[..n];
      UpsertAllLast(rows, orderId, items);
      FreshPrefix(rows, items, prefix);
      UpsertAllFresh(rows, orderId, prefix);
      AppendStep(rows, orderId, items, prefix);
    }
  }

  /**
   * The premises of UpsertAllFresh carry over from the items to all but the
   * last one. A separate lemma only to keep the proof of UpsertAllFresh small.
   */
  lemma FreshPrefix(rows: seq<ItemRow>, items: seq<OrderItem>, prefix: seq<OrderItem>)
    requires items != [] && prefix == items[..|items| - 1]
    requires DistinctItemIds(items)
    requires forall j :: 0 <= j < |items| ==> !HasItemRow(rows, items[j].id)
    ensures DistinctItemIds(prefix)
    ensures forall j :: 0 <= j < |prefix| ==> !HasItemRow(rows, prefix[j].id)
    ensures forall j :: 0 <= j < |prefix| ==> prefix[j].id != items[|items| - 1].id
    ensures !HasItemRow(rows, items[|items| - 1].id)
  {
  }

  /** Upserting one more item with a new id appends its row. */
  lemma AppendStep(rows: seq<ItemRow>, orderId: string, items: seq<OrderItem>, prefix: seq<OrderItem>)
    requires items != [] && prefix == items[..|items| - 1]
    requires !HasItemRow(rows, items[|items| - 1].id)
    requires forall j :: 0 <= j < |prefix| ==> prefix[j].id != items[|items| - 1].id
    ensures Upsert(rows + ItemRowsOf(orderId, prefix), ItemToRow(orderId, items[|items| - 1])) ==
            rows + ItemRowsOf(orderId, items)
  {
    var last := items[|items| - 1];
    assert prefix + [last] == items;
    FreshAfterWrite(rows, orderId, prefix, last.id);
    ItemRowsOfConcat(orderId, prefix, [last]);
  }

  /** Upserting stored rows and then rows with new ids appends exactly the new ones. */
  lemma UpsertStoredThenFresh(rows: seq<ItemRow>, orderId: string, stored: seq<OrderItem>, added: seq<OrderItem>)
    requires UniqueItemIds(rows)
    requires forall j :: 0 <= j < |stored| ==> ItemToRow(orderId, stored[j]) in rows
    requires DistinctItemIds(added)
    requires forall j :: 0 <= j < |added| ==> !HasItemRow(rows, added[j].id)
    ensures UpsertAll(rows, orderId, stored + added) == rows + ItemRowsOf(orderId, added)
  {
    UpsertAllConcat(rows, orderId, stored, added);
    UpsertAllStored(rows, orderId, stored);
    UpsertAllFresh(rows, orderId, added);
  }

  /**
   * The item rows loaded for `o` after its items are upserted, when the stored
   * rows of `o` are the rows of its first `p` items and the rest carry new ids.
   */
  lemma UpsertAllAfterAdding(rows: seq<ItemRow>, o: Order, p: nat)
    requires UniqueItemIds(rows)
    requires DistinctItemIds(o.items)
    requires p <= |o.items|
    requires ItemsOfOrder(rows, o.id) == ItemRowsOf(o.id, o.items[..p])
    requires forall j :: p <= j < |o.items| ==> !HasItemRow(rows, o.items[j].id)
    ensures ItemsOfOrder(UpsertAll(rows, o.id, o.items), o.id) == ItemRowsOf(o.id, o.items)
  {
    var stored, added := o.items[..p], o.items[p..];
    assert o.items == stored + added;
    forall j | 0 <= j < |stored| ensures ItemToRow(o.id, stored[j]) in rows {
      assert ItemToRow(o.id, stored[j]) in ItemsOfOrder(rows, o.id);
    }
    forall j | 0 <= j < |added| ensures !HasItemRow(rows, added[j].id) {
      assert added[j] == o.items[p + j];
    }
    assert DistinctItemIds(added) by {
      forall i, j | 0 <= i < j < |added| ensures added[i].id != added[j].id {
        assert added[i] == o.items[p + i] && added[j] == o.items[p + j];
      }
    }
    UpsertStoredThenFresh(rows, o.id, stored, added);
    ItemsOfOrderConcat(rows, ItemRowsOf(o.id, added), o.id);
    ItemsOfOrderOwnRows(o.id, added);
    ItemRowsOfConcat(o.id, stored, added);
  }

  /**
   * Update after adding items: when the stored item rows of an order are the
   * rows of the first `p` items of `o` and the remaining items carry new ids,
   * `update(o)` followed by `find(o.id)` gives back `o` with all its items, in order.
   */
  lemma UpdateThenFind(orders: seq<OrderRow>, rows: seq<ItemRow>, o: Order, p: nat)
    requires UniqueItemIds(rows)
    requires DistinctItemIds(o.items)
    requires HasOrderRow(orders, o.id)
    requires p <= |o.items|
    requires ItemsOfOrder(rows, o.id) == ItemRowsOf(o.id, o.items[..p])
    requires forall j :: p <= j < |o.items| ==> !HasItemRow(rows, o.items[j].id)
    ensures Find(SetCustomerWhere(orders, o.id, o.customerId), UpsertAll(rows, o.id, o.items), o.id) == Some(o)
  {
    UpsertAllAfterAdding(rows, o, p);
    FindOneSetCustomer(orders, o.id, o.customerId);
    var row := FindOne(orders, o.id).value;
    TransformModelInvertsEncoding(o);
    assert TransformModel(OrderModel(row.(customerId := o.customerId), ItemRowsOf(o.id, o.items))) == o;
  }

  /**
   * `update` never deletes: an item row of the order whose id is not among
   * the order's current items is still loaded by `find` afterwards.
   */
  lemma UpdateKeepsStaleItems(rows: seq<ItemRow>, o: Order, x: ItemRow)
    requires x in ItemsOfOrder(rows, o.id)
    requires !IdAmong(x.id, o.items)
    ensures x in ItemsOfOrder(UpsertAll(rows, o.id, o.items), o.id)
  {
    var k :| 0 <= k < |rows| && rows[k] == x;
    UpsertAllKeepsOthers(rows, o.id, o.items, k);
  }

  /** `update` writes customer_id only: the stored total keeps the value `create` wrote. */
  lemma UpdateKeepsStoredTotal(orders: seq<OrderRow>, id: string, customerId: string)
    ensures FindOne(SetCustomerWhere(orders, id, customerId), id).Some? ==
            FindOne(orders, id).Some?
    ensures FindOne(orders, id).Some? ==>
              FindOne(SetCustomerWhere(orders, id, customerId), id).value.total == FindOne(orders, id).value.total
  {
    FindOneSetCustomer(orders, id, customerId);
  }

  /** `update` of an existing order keeps every item row pointing at a stored order. */
  lemma {:induction false} UpdateKeepsReferenced(orders: seq<OrderRow>, rows: seq<ItemRow>, o: Order)
    requires Referenced(orders, rows)
    requires HasOrderRow(orders, o.id)
    ensures Referenced(SetCustomerWhere(orders, o.id, o.customerId), UpsertAll(rows, o.id, o.items))
    decreases |o.items|
  {
    var os := SetCustomerWhere(orders, o.id, o.customerId);
    assert forall id :: HasOrderRow(orders, id) ==> HasOrderRow(os, id) by {
      forall id | HasOrderRow(orders, id) ensures HasOrderRow(os, id) {
        var m :| 0 <= m < |orders| && orders[m].id == id;
        assert os[m].id == id;
      }
    }
    UpsertAllReferences(orders, rows, o.id, o.items);
  }

  lemma {:induction false} UpsertAllReferences(orders: seq<OrderRow>, rows: seq<ItemRow>, orderId: string, items: seq<OrderItem>)
    requires Referenced(orders, rows)
    requires HasOrderRow(orders, orderId)
    ensures Referenced(orders, UpsertAll(rows, orderId, items))
    decreases |items|
  {
    if items != [] {
      var n := |items| - 1;
      UpsertAllReferences(orders, rows, orderId, items[..n]);
      var before := UpsertAll(rows, orderId, items[..n]);
      var row := ItemToRow(orderId, items[n]);
      var after := Upsert(before, row);
      forall k | 0 <= k < |after| ensures HasOrderRow(orders, after[k].orderId) {
        if k < |before| && before[k].id != row.id {
          assert after[k] == before[k];
        } else if k >= |before| {
          assert after == before + [row];
        } else {
          UpsertKeepsOrderIds(before, row, k);
        }
      }
    }
  }

  /** An upserted position holds either the old row or the new one. */
  lemma {:induction false} UpsertKeepsOrderIds(rows: seq<ItemRow>, row: ItemRow, k: nat)
    requires k < |Upsert(rows, row)|
    ensures Upsert(rows, row)[k] == row || (k < |rows| && Upsert(rows, row)[k] == rows[k])
  {
    if rows != [] && rows[0].id != row.id && k > 0 {
      UpsertKeepsOrderIds(rows[1..], row, k - 1);
    }
  }
}
