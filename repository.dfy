/**
 * The order repository over an in-memory two-table store. `create` and
 * `update` change the tables; `find` and `findAll` read them through the
 * row-level functions of OrderRows.
 */
module Repository {
  import opened Wrappers
  import opened Checkout
  import opened OrderRows

  class OrderRepository {
    /** The `orders` table, in storage (creation) order. */
    var orders: seq<OrderRow>
    /** The `order_items` table, in storage order. */
    var items: seq<ItemRow>

    /** The primary keys of both tables. */
    ghost predicate Valid()
      reads this
    {
      UniqueOrderIds(orders) && UniqueItemIds(items)
    }

    constructor ()
      ensures Valid()
      ensures orders == [] && items == []
    {
      orders := [];
      items := [];
    }

    /**
     * `create(entity)`: one order row with the order's id, customer id and
     * total, and one item row per item carrying `order_id = o.id`, appended
     * in the order of the items. Nothing else changes.
     */
    method Create(o: Order)
      requires Valid()
      requires CanCreate(orders, items, o)
      modifies this
      ensures Valid()
      ensures orders == old(orders) + [OrderRowOf(o)]
      ensures items == old(items) + ItemRowsOf(o.id, o.items)
      ensures old(Referenced(orders, items)) ==> Referenced(orders, items)
      ensures old(Referenced(orders, items)) ==> Find(o.id) == Some(o)
    {
      CreateKeepsKeysUnique(orders, items, o);
      if Referenced(orders, items) {
        CreateKeepsReferenced(orders, items, o);
        NoItemsForUnknownOrder(orders, items, o.id);
        CreateThenFind(orders, items, o);
      }
      orders := orders + [OrderRowOf(o)];
      items := items + ItemRowsOf(o.id, o.items);
    }

    /**
     * `update(entity)`: customer_id of the order row is overwritten (the
     * stored total is not written), then every item of the order is upserted
     * by its id with `order_id = o.id`, one after another. Item rows whose
     * ids are not among the items are left as they are.
     */
    method Update(o: Order)
      requires Valid()
      modifies this
      ensures Valid()
      ensures orders == SetCustomerWhere(old(orders), o.id, o.customerId)
      ensures items == UpsertAll(old(items), o.id, o.items)
    {
      orders := SetCustomerWhere(orders, o.id, o.customerId);
      assert UniqueOrderIds(orders);
      var i := 0;
      while i < |o.items|
        invariant 0 <= i <= |o.items|
        invariant orders == SetCustomerWhere(old(orders), o.id, o.customerId)
        invariant items == UpsertAll(old(items), o.id, o.items[..i])
        invariant Valid()
      {
        UpsertKeepsUnique(items, ItemToRow(o.id, o.items[i]));
        items := Upsert(items, ItemToRow(o.id, o.items[i]));
        assert o.items[..i + 1][..i] == o.items[..i];
        i := i + 1;
      }
      assert o.items[..|o.items|] == o.items;
    }

    /** `find(id)`: None where the source fails on a missing row. */
    function Find(id: string): Option<Order>
      reads this
    {
      OrderRows.Find(orders, items, id)
    }

    /** `findAll()`. */
    function FindAll(): seq<Order>
      reads this
    {
      OrderRows.FindAll(orders, items)
    }
  }

  // -----------------------------------------------------------------------
  // The repository's test scenarios, on a fresh store, with the fixtures'
  // product price 10.

  function Item1(): OrderItem { OrderItem("1", "Product", 10, "123", 2) }
  function Item2(): OrderItem { OrderItem("2", "Product", 10, "456", 1) }
  function Order1(): Order { Order("123", "123", [Item1()]) }
  /** The second order of the list test: item "2" of product "123", for customer "456". */
  function Order2(): Order { Order("456", "456", [OrderItem("2", "Product", 10, "123", 1)]) }

  /** "should create a new order": the rows written for an order with one item. */
  method CreateOrderScenario() returns (orderRows: seq<OrderRow>, itemRows: seq<ItemRow>)
    ensures orderRows == [OrderRow("123", "123", 20)]
    ensures itemRows == [ItemRow("1", "123", "Product", 10, "123", 2)]
  {
    var repo := new OrderRepository();
    repo.Create(Order1());
    orderRows, itemRows := repo.orders, repo.items;
  }

  /** "should find order by id". */
  method FindOrderScenario() returns (found: Option<Order>)
    ensures found == Some(Order1())
  {
    var repo := new OrderRepository();
    repo.Create(Order1());
    found := repo.Find("123");
  }

  /**
   * "should update an order": after a second item is added and the order is
   * updated, find returns the order with both items and total 30, while the
   * stored total is still the 20 written by create.
   */
  method UpdateOrderScenario() returns (found: Option<Order>, storedTotal: int)
    ensures found == Some(AddItem(Order1(), Item2()))
    ensures Total(found.value) == 30
    ensures storedTotal == 20
  {
    var repo := new OrderRepository();
    var order := Order1();
    repo.Create(order);
    assert repo.orders == [OrderRow("123", "123", 20)];
    var updated := AddItem(order, Item2());
    assert Total(updated) == 30;
    UpdateScenarioPremises(repo.orders, repo.items, order, updated);
    UpdateThenFind(repo.orders, repo.items, updated, 1);
    repo.Update(updated);
    found := repo.Find("123");
    storedTotal := repo.orders[0].total;
  }

  /** What the update scenario needs of the store right after the first create. */
  lemma UpdateScenarioPremises(orders: seq<OrderRow>, rows: seq<ItemRow>, order: Order, updated: Order)
    requires order == Order1() && updated == AddItem(order, Item2())
    requires orders == [OrderRowOf(order)] && rows == ItemRowsOf(order.id, order.items)
    ensures ItemsOfOrder(rows, updated.id) == ItemRowsOf(updated.id, updated.items[..1])
    ensures !HasItemRow(rows, updated.items[1].id)
    ensures HasOrderRow(orders, updated.id)
    ensures DistinctItemIds(updated.items)
  {
    assert updated.items[..1] == order.items;
    ItemsOfOrderOwnRows(order.id, order.items);
    assert orders[0].id == updated.id;
  }

  /**
   * "should list all orders": on the tables written by the two creates,
   * findAll returns [order] after the first and [order, order2] after the second.
   * The tables are the ones the ensures of OrderRepository.Create give for the
   * two creates on a fresh repository (old tables plus OrderRowOf(o) and
   * ItemRowsOf(o.id, o.items)), written out directly.
   */
  lemma ListAllOrdersScenario()
    ensures OrderRows.FindAll([OrderRowOf(Order1())], ItemRowsOf(Order1().id, Order1().items)) == [Order1()]
    ensures OrderRows.FindAll([OrderRowOf(Order1()), OrderRowOf(Order2())],
                              ItemRowsOf(Order1().id, Order1().items) + ItemRowsOf(Order2().id, Order2().items))
            == [Order1(), Order2()]
  {
    var orders, rows := [OrderRowOf(Order1())], ItemRowsOf(Order1().id, Order1().items);
    FindAllAfterCreate([], [], Order1());
    assert OrderRows.FindAll([], []) == [];
    assert [] + [OrderRowOf(Order1())] == orders && [] + rows == rows;
    assert !HasOrderRow(orders, Order2().id);
    ItemsOfOrderOtherRows(Order1().id, Order1().items, Order2().id);
    FindAllAfterCreate(orders, rows, Order2());
    assert orders + [OrderRowOf(Order2())] == [OrderRowOf(Order1()), OrderRowOf(Order2())];
  }
}
