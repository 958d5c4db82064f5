/**
 * The session cart of the order controller: an ordered sequence of lines, each
 * holding a product id, the product's name and price as they were when the line
 * was added, and a quantity. Quantities are never coerced to be positive.
 */
module ShoppingCart {
  import opened Wrappers
  import opened Int32
  import opened ProductModel
  import opened ProductsController

  datatype CartLine = CartLine(productId: int32, name: string, unitPrice: real, quantity: int32)

  type Cart = seq<CartLine>

  /** Price × quantity. */
  function Times(price: real, quantity: int): real {
    price * (quantity as real)
  }

  /** UnitPrice × Quantity of one line. */
  function Amount(l: CartLine): real {
    Times(l.unitPrice, l.quantity)
  }

  /** The sum of the line amounts. */
  function Subtotal(cart: Cart): real {
    if |cart| == 0 then 0.0 else Amount(cart[0]) + Subtotal(cart[1..])
  }

  lemma {:induction false} SubtotalAppend(a: Cart, b: Cart)
    ensures Subtotal(a + b) == Subtotal(a) + Subtotal(b)
    decreases |a|
  {
    if |a| > 0 {
      assert (a + b)[1..] == a[1..] + b;
      SubtotalAppend(a[1..], b);
    } else {
      assert a + b == b;
    }
  }

  /** Replacing one line changes the subtotal by the difference of the two line amounts. */
  lemma {:induction false} SubtotalUpdate(cart: Cart, i: nat, l: CartLine)
    requires i < |cart|
    ensures Subtotal(cart[i := l]) == Subtotal(cart) - Amount(cart[i]) + Amount(l)
    decreases i
  {
    if i > 0 {
      assert cart[i := l][1..] == cart[1..][i - 1 := l];
      SubtotalUpdate(cart[1..], i - 1, l);
    } else {
      assert cart[i := l][1..] == cart[1..];
    }
  }

  /** With non-negative prices and quantities the subtotal is non-negative. */
  lemma {:induction false} SubtotalNonNegative(cart: Cart)
    requires forall i | 0 <= i < |cart| :: cart[i].unitPrice >= 0.0 && cart[i].quantity >= 0
    ensures Subtotal(cart) >= 0.0
    decreases |cart|
  {
    if |cart| > 0 {
      SubtotalNonNegative(cart[1..]);
    }
  }

  datatype Totals = Totals(subtotal: real, tax: real, total: real)

  /** The cart page's figures: the sum of the lines, a tax of 0 and a total equal to the subtotal. */
  function View(cart: Cart): (t: Totals)
    ensures t.tax == 0.0 && t.total == t.subtotal
    ensures t.subtotal == Subtotal(cart)
    ensures |cart| == 0 ==> t.subtotal == 0.0
  {
    var subtotal := Subtotal(cart);
    Totals(subtotal, 0.0, subtotal)
  }

  /** No two lines of the cart are for the same product. */
  predicate DistinctProducts(cart: Cart) {
    forall i, j | 0 <= i < j < |cart| :: cart[i].productId != cart[j].productId
  }

  /** The index of the first line for `productId` (`FirstOrDefault`). */
  function FindLine(cart: Cart, productId: int32): (r: Option<nat>)
    ensures r.Some? ==> r.value < |cart| && cart[r.value].productId == productId
    ensures r.Some? ==> forall j | 0 <= j < r.value :: cart[j].productId != productId
    ensures r.None? ==> forall j | 0 <= j < |cart| :: cart[j].productId != productId
  {
    if |cart| == 0 then None
    else if cart[0].productId == productId then Some(0)
    else match FindLine(cart[1..], productId)
      case Some(i) => Some(i + 1)
      case None => None
  }

  datatype AddRedirect = ToProductList | ToCart

  datatype AddResult = AddResult(redirect: AddRedirect, cart: Cart)

  /**
   * AddToCart: an unknown product leaves the cart as it is; a product that
   * already has a line gets `qty` added to that line's quantity (with 32-bit
   * wrap-around); any other product gets a new line at the end carrying its
   * current name and price.
   */
  function AddToCart(products: ProductStore, cart: Cart, productId: int32, qty: int32): (r: AddResult)
    ensures productId !in products ==> r == AddResult(ToProductList, cart)
    ensures productId in products ==> r.redirect == ToCart
    ensures productId in products ==>
      forall i | 0 <= i < |cart| && cart[i].productId == productId
                 && (forall j | 0 <= j < i :: cart[j].productId != productId) ::
        r.cart == cart[i := cart[i].(quantity := Wrap(cart[i].quantity + qty))]
    ensures productId in products && (forall i | 0 <= i < |cart| :: cart[i].productId != productId) ==>
      var p := products[productId];
      r.cart == cart + [CartLine(p.id, p.name, p.price, qty)]
    ensures WellKeyed(products) && DistinctProducts(cart) ==> DistinctProducts(r.cart)
  {
    if productId !in products then AddResult(ToProductList, cart)
    else
      var p := products[productId];
      match FindLine(cart, productId)
      case None =>
        AddResult(ToCart, cart + [CartLine(p.id, p.name, p.price, qty)])
      case Some(i) =>
        AddResult(ToCart, cart[i := cart[i].(quantity := Wrap(cart[i].quantity + qty))])
  }

  /** Adding a product that has no line yet raises the subtotal by its current price times `qty`. */
  lemma AddToCartSubtotalNewLine(products: ProductStore, cart: Cart, productId: int32, qty: int32)
    requires productId in products
    requires forall i | 0 <= i < |cart| :: cart[i].productId != productId
    ensures Subtotal(AddToCart(products, cart, productId, qty).cart)
         == Subtotal(cart) + Times(products[productId].price, qty)
  {
    var p := products[productId];
    var l := CartLine(p.id, p.name, p.price, qty);
    var r := AddToCart(products, cart, productId, qty).cart;
    assert r == cart + [l];
    SubtotalAppendLine(cart, l);

  }

  lemma SubtotalAppendLine(cart: Cart, l: CartLine)
    ensures Subtotal(cart + [l]) == Subtotal(cart) + Amount(l)
  {
    SubtotalAppend(cart, [l]);
    assert [l][1..] == [];
    assert Subtotal([l]) == Amount(l) + Subtotal([]);
  }

  /**
   * Adding a product that already has a line raises the subtotal by that line's
   * snapshot price times `qty`, as long as the merged quantity does not wrap.
   */
  lemma AddToCartSubtotalMerge(products: ProductStore, cart: Cart, productId: int32, qty: int32, i: nat)
    requires productId in products
    requires i < |cart| && cart[i].productId == productId
    requires forall j | 0 <= j < i :: cart[j].productId != productId
    requires InRange(cart[i].quantity + qty)
    ensures Subtotal(AddToCart(products, cart, productId, qty).cart)
         == Subtotal(cart) + Times(cart[i].unitPrice, qty)
  {
    var l := cart[i].(quantity := Wrap(cart[i].quantity + qty));
    var r := AddToCart(products, cart, productId, qty).cart;
    assert r == cart[i := l];
    MergedSubtotal(cart, i, qty, r);
  }

  /** Raising one line's quantity by `qty` without wrapping raises the subtotal by its price times `qty`. */
  lemma MergedSubtotal(cart: Cart, i: nat, qty: int32, r: Cart)
    requires i < |cart| && InRange(cart[i].quantity + qty)
    requires r == cart[i := cart[i].(quantity := Wrap(cart[i].quantity + qty))]
    ensures Subtotal(r) == Subtotal(cart) + Times(cart[i].unitPrice, qty)
  {
    SubtotalUpdate(cart, i, r[i]);
    AmountOfMerge(cart[i], qty);
  }

  lemma AmountOfMerge(l: CartLine, qty: int32)
    requires InRange(l.quantity + qty)
    ensures Amount(l.(quantity := Wrap(l.quantity + qty))) == Amount(l) + Times(l.unitPrice, qty)
  {
    var q := l.quantity as real;
    var k := qty as real;
    assert Wrap(l.quantity + qty) as real == q + k;
    assert l.unitPrice * (q + k) == l.unitPrice * q + l.unitPrice * k;
  }

  /** The lines AddToCart produces carry positive prices when the catalog's products are valid. */
  predicate PricesPositive(cart: Cart) {
    forall i | 0 <= i < |cart| :: cart[i].unitPrice >= MinPrice
  }

  /** On any cart whose product ids are distinct and prices positive, AddToCart keeps both. */
  lemma AddToCartKeepsCartInvariant(products: ProductStore, cart: Cart, productId: int32, qty: int32)
    requires WellKeyed(products) && AllValid(products)
    requires DistinctProducts(cart) && PricesPositive(cart)
    ensures var r := AddToCart(products, cart, productId, qty).cart;
            DistinctProducts(r) && PricesPositive(r)
  {
  }
}
