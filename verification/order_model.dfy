/**
 * The order record, its line items, the defaults of a newly constructed order
 * and the bounds its data annotations state. The creation timestamp is not
 * modelled.
 */
module OrderModel {
  import opened Wrappers
  import opened Int32
  import opened Text

  datatype OrderItem = OrderItem(orderId: int32, productId: int32, quantity: int32, unitPrice: real)

  datatype Order = Order(
    id: int32,
    userId: int32,
    status: string,
    subtotal: real,
    tax: real,
    total: real,
    items: seq<OrderItem>)

  const Pending: string := "Pending"
  const MaxStatusLength: nat := 20

  /** Status is required and at most 20 characters; Subtotal, Tax and Total are at least 0. */
  predicate Valid(o: Order) {
    && !IsNullOrWhiteSpace(Some(o.status)) && |o.status| <= MaxStatusLength
    && o.subtotal >= 0.0 && o.tax >= 0.0 && o.total >= 0.0
  }

  /** A freshly constructed order: status "Pending", no items, zero amounts. */
  function NewOrder(): (o: Order)
    ensures o.status == Pending && o.items == []
    ensures o.subtotal == 0.0 && o.tax == 0.0 && o.total == 0.0
    ensures Valid(o)
  {
    assert !IsWhiteSpace(Pending[0]);
    Order(0, 0, Pending, 0.0, 0.0, 0.0, [])
  }
}
