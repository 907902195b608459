/**
 * The checkout aggregate as the order repository sees it: an Order with its
 * ordered OrderItems. The total is derived from the items on every read and
 * is never part of the aggregate's own state.
 */
module Checkout {

  /** An order line: name and price are copies taken from the product. */
  datatype OrderItem = OrderItem(id: string, name: string, price: int, productId: string, quantity: int)

  datatype Order = Order(id: string, customerId: string, items: seq<OrderItem>)

  function Subtotal(item: OrderItem): int
  {
    item.price * item.quantity
  }

  /** Sum of the subtotals of `items`. */
  function ItemsTotal(items: seq<OrderItem>): int
  {
    if items == [] then 0 else Subtotal(items[0]) + ItemsTotal(items[1..])
  }

  function Total(o: Order): int
  {
    ItemsTotal(o.items)
  }

  /** Appending an item raises the total by exactly that item's subtotal. */
  lemma {:induction false} ItemsTotalAppend(items: seq<OrderItem>, item: OrderItem)
    ensures ItemsTotal(items + [item]) == ItemsTotal(items) + Subtotal(item)
  {
    if items == [] {
      assert [] + [item] == [item];
    } else {
      assert (items + [item])[1..] == items[1..] + [item];
      ItemsTotalAppend(items[1..], item);
    }
  }

  /** `Order.addItem`: the aggregate's one way to grow its item collection. */
  function AddItem(o: Order, item: OrderItem): (r: Order)
    ensures r.id == o.id && r.customerId == o.customerId
    ensures r.items == o.items + [item]
    ensures Total(r) == Total(o) + Subtotal(item)
  {
    ItemsTotalAppend(o.items, item);
    o.(items := o.items + [item])
  }
}
