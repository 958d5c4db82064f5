/**
 * Checkout and the order listing. Checkout validates every cart line against
 * the current stock before changing anything; it then records a Pending order,
 * one item per line, decrements each product's stock and empties the cart.
 * Stock and quantities are 32-bit integers and the subtraction wraps around.
 */
module OrdersController {
  import opened Wrappers
  import opened Int32
  import opened Sorting
  import opened ProductModel
  import opened ProductsController
  import opened OrderModel
  import opened ShoppingCart
  import opened AuthController
  import Roles

  type OrderStore = map<int32, Order>

  /** The tables checkout touches: products, orders and order items. */
  datatype Shop = Shop(products: ProductStore, orders: OrderStore, orderItems: seq<OrderItem>)

  /** A line passes the stock check: its product exists and has at least the line's quantity. */
  predicate Stocked(products: ProductStore, l: CartLine) {
    l.productId in products && products[l.productId].stock >= l.quantity
  }

  /**
   * A line passes validation: the stock check, and, when `guarded`, also a
   * positive quantity (the corrected check; the code as written has no such test).
   */
  predicate Passes(products: ProductStore, l: CartLine, guarded: bool) {
    Stocked(products, l) && (guarded ==> l.quantity > 0)
  }

  /** The first line that fails validation, if any. */
  function FirstFailing(products: ProductStore, cart: Cart, guarded: bool): (r: Option<nat>)
    ensures r.Some? ==> r.value < |cart| && !Passes(products, cart[r.value], guarded)
    ensures r.Some? ==> forall j | 0 <= j < r.value :: Passes(products, cart[j], guarded)
    ensures r.None? <==> forall j | 0 <= j < |cart| :: Passes(products, cart[j], guarded)
  {
    if |cart| == 0 then None
    else if !Passes(products, cart[0], guarded) then Some(0)
    else match FirstFailing(products, cart[1..], guarded)
      case Some(i) => Some(i + 1)
      case None =>
        assert forall j | 1 <= j < |cart| :: cart[j] == cart[1..][j - 1];
        None
  }

  /** The total quantity the cart holds of one product, over all its lines. */
  function QuantityOf(cart: Cart, productId: int32): int {
    if |cart| == 0 then 0
    else (if cart[0].productId == productId then cart[0].quantity else 0) + QuantityOf(cart[1..], productId)
  }

  /** With one line per product, a product's quantity is its line's quantity, or 0 without a line. */
  lemma {:induction false} QuantityOfDistinct(cart: Cart, productId: int32)
    requires DistinctProducts(cart)
    ensures forall i | 0 <= i < |cart| && cart[i].productId == productId :: QuantityOf(cart, productId) == cart[i].quantity
    ensures (forall i | 0 <= i < |cart| :: cart[i].productId != productId) ==> QuantityOf(cart, productId) == 0
    decreases |cart|
  {
    if |cart| > 0 {
      QuantityOfDistinct(cart[1..], productId);
      forall i | 1 <= i < |cart| ensures cart[i] == cart[1..][i - 1] { }
    }
  }

  /** `p.Stock -= ci.Quantity` for one line. */
  function DecrementLine(products: ProductStore, l: CartLine): (r: ProductStore)
    requires l.productId in products
    ensures r.Keys == products.Keys
  {
    var p := products[l.productId];
    products[l.productId := p.(stock := Wrap(p.stock - l.quantity))]
  }

  /** One line lowers its own product's stock by its quantity and leaves every other product alone. */
  lemma DecrementLineAt(products: ProductStore, l: CartLine, k: int32)
    requires l.productId in products && k in products
    ensures DecrementLine(products, l)[k] == products[k].(stock := Wrap(products[k].stock - QuantityOf([l], k)))
  {
    assert [l][1..] == [];
    if k != l.productId {
      assert QuantityOf([l], k) == 0;
      assert Wrap(products[k].stock - 0) == products[k].stock;
    }
  }

  /** The decrement loop: each line in turn subtracts its quantity from its product's stock. */
  function DecrementAll(products: ProductStore, cart: Cart): (r: ProductStore)
    requires forall i | 0 <= i < |cart| :: cart[i].productId in products
    ensures r.Keys == products.Keys
    decreases |cart|
  {
    if |cart| == 0 then products
    else
      assert forall i | 0 <= i < |cart| - 1 :: cart[1..][i] == cart[i + 1];
      DecrementAll(DecrementLine(products, cart[0]), cart[1..])
  }

  /**
   * A product's final stock is its old stock minus everything the cart holds
   * of it, over all its lines, wrapped to 32 bits; nothing else about it changes.
   */
  lemma {:induction false} DecrementAllAt(products: ProductStore, cart: Cart, k: int32)
    requires forall i | 0 <= i < |cart| :: cart[i].productId in products
    requires k in products
    ensures DecrementAll(products, cart)[k] == products[k].(stock := Wrap(products[k].stock - QuantityOf(cart, k)))
    decreases |cart|
  {
    if |cart| == 0 {
      assert QuantityOf(cart, k) == 0;
    } else {
      var next := DecrementLine(products, cart[0]);
      var fin := DecrementAll(products, cart);
      assert forall i | 0 <= i < |cart| - 1 :: cart[1..][i] == cart[i + 1];
      assert fin == DecrementAll(next, cart[1..]);
      DecrementAllAt(next, cart[1..], k);
      DecrementLineAt(products, cart[0], k);
      QuantityOfSplit(cart, k);
      DecrementCompose(products[k], QuantityOf([cart[0]], k), QuantityOf(cart[1..], k), QuantityOf(cart, k),
                       next[k], fin[k]);
    }
  }

  /** Two successive wrapped decrements are one decrement by the sum. */
  lemma DecrementCompose(p: Product, a: int, b: int, total: int, mid: Product, fin: Product)
    requires total == a + b
    requires mid == p.(stock := Wrap(p.stock - a))
    requires fin == mid.(stock := Wrap(mid.stock - b))
    ensures fin == p.(stock := Wrap(p.stock - total))
  {
    WrapSubtract(p.stock, a, b);
  }

  lemma QuantityOfSplit(cart: Cart, k: int32)
    requires |cart| > 0
    ensures QuantityOf(cart, k) == QuantityOf([cart[0]], k) + QuantityOf(cart[1..], k)
  {
    assert [cart[0]][1..] == [];
  }

  /** The order items of the second loop: one per line, with the product's current price. */
  function ItemsFor(products: ProductStore, cart: Cart, orderId: int32): (items: seq<OrderItem>)
    requires forall i | 0 <= i < |cart| :: cart[i].productId in products
    ensures |items| == |cart|
    ensures forall i | 0 <= i < |cart| ::
      var p := products[cart[i].productId];
      items[i] == OrderItem(orderId, p.id, cart[i].quantity, p.price)
    decreases |cart|
  {
    if |cart| == 0 then []
    else
      var p := products[cart[0].productId];
      assert forall i | 0 <= i < |cart| - 1 :: cart[1..][i] == cart[i + 1];
      [OrderItem(orderId, p.id, cart[0].quantity, p.price)] + ItemsFor(products, cart[1..], orderId)
  }

  datatype CheckoutOutcome =
    | EmptyCart
    | InsufficientStock(productName: string)
    | InvalidQuantity(productName: string)
    | Placed(orderId: int32)

  datatype CheckoutResult = CheckoutResult(outcome: CheckoutOutcome, shop: Shop, cart: Cart)

  /**
   * Lines 70-90, after every line has passed the check: the order (snapshot
   * prices in its amounts), the items (current prices), the stock decrement and
   * the emptied cart.
   */
  function Commit(shop: Shop, cart: Cart, userId: int32, orderId: int32): (r: CheckoutResult)
    requires forall i | 0 <= i < |cart| :: cart[i].productId in shop.products
    ensures r.outcome == Placed(orderId) && r.cart == []
    ensures r.shop.orders.Keys == shop.orders.Keys + {orderId}
    ensures r.shop.products.Keys == shop.products.Keys
    ensures |r.shop.orderItems| == |shop.orderItems| + |cart|
  {
    var subtotal := Subtotal(cart);
    var order := NewOrder().(id := orderId, userId := userId, status := Pending,
                             subtotal := subtotal, tax := 0.0, total := subtotal);
    var items := ItemsFor(shop.products, cart, orderId);
    var shop' := Shop(DecrementAll(shop.products, cart), shop.orders[orderId := order], shop.orderItems + items);
    CheckoutResult(Placed(orderId), shop', [])
  }

  /** The new order: Pending, for the user, charging the cart's subtotal with no tax. */
  ghost predicate OrderRecorded(before: OrderStore, after: OrderStore, cart: Cart, userId: int32, orderId: int32) {
    && after.Keys == before.Keys + {orderId}
    && (forall k | k in before :: after[k] == before[k])
    && after[orderId].id == orderId
    && after[orderId].userId == userId
    && after[orderId].status == Pending
    && after[orderId].items == []
    && after[orderId].subtotal == Subtotal(cart)
    && after[orderId].tax == 0.0
    && after[orderId].total == after[orderId].subtotal
  }

  /** One new item per line, in cart order, with the line's quantity and the product's current price. */
  ghost predicate ItemsRecorded(products: ProductStore, before: seq<OrderItem>, after: seq<OrderItem>,
                                cart: Cart, orderId: int32) {
    && |after| == |before| + |cart|
    && after[..|before|] == before
    && forall i | 0 <= i < |cart| ::
         && cart[i].productId in products
         && after[|before| + i].orderId == orderId
         && after[|before| + i].productId == products[cart[i].productId].id
         && after[|before| + i].quantity == cart[i].quantity
         && after[|before| + i].unitPrice == products[cart[i].productId].price
  }

  /** Every product's stock drops by what the cart holds of it (wrapped); nothing else changes. */
  ghost predicate StockDecremented(before: ProductStore, after: ProductStore, cart: Cart) {
    && after.Keys == before.Keys
    && forall k | k in before ::
         after[k] == before[k].(stock := Wrap(before[k].stock - QuantityOf(cart, k)))
  }

  /** What a successful checkout leaves behind. */
  ghost predicate PlacedAsPromised(shop: Shop, cart: Cart, userId: int32, orderId: int32, r: CheckoutResult) {
    && r.outcome == Placed(orderId)
    && r.cart == []
    && OrderRecorded(shop.orders, r.shop.orders, cart, userId, orderId)
    && ItemsRecorded(shop.products, shop.orderItems, r.shop.orderItems, cart, orderId)
    && StockDecremented(shop.products, r.shop.products, cart)
  }

  lemma CommitRecordsOrder(shop: Shop, cart: Cart, userId: int32, orderId: int32)
    requires orderId !in shop.orders
    requires forall i | 0 <= i < |cart| :: cart[i].productId in shop.products
    ensures OrderRecorded(shop.orders, Commit(shop, cart, userId, orderId).shop.orders, cart, userId, orderId)
  {
  }

  lemma CommitRecordsItems(shop: Shop, cart: Cart, userId: int32, orderId: int32)
    requires forall i | 0 <= i < |cart| :: cart[i].productId in shop.products
    ensures ItemsRecorded(shop.products, shop.orderItems, Commit(shop, cart, userId, orderId).shop.orderItems, cart, orderId)
  {
    var after := Commit(shop, cart, userId, orderId).shop.orderItems;
    var items := ItemsFor(shop.products, cart, orderId);
    var n := |shop.orderItems|;
    assert after == shop.orderItems + items;
    assert after[..n] == shop.orderItems;
    forall i | 0 <= i < |cart| ensures after[n + i] == items[i] { }
  }

  /** The decrement loop, over every product at once. */
  lemma DecrementAllDecrements(products: ProductStore, cart: Cart)
    requires forall i | 0 <= i < |cart| :: cart[i].productId in products
    ensures StockDecremented(products, DecrementAll(products, cart), cart)
  {
    forall k | k in products
      ensures DecrementAll(products, cart)[k] == products[k].(stock := Wrap(products[k].stock - QuantityOf(cart, k)))
    {
      DecrementAllAt(products, cart, k);
    }
  }

  lemma CommitAsPromised(shop: Shop, cart: Cart, userId: int32, orderId: int32)
    requires orderId !in shop.orders
    requires forall i | 0 <= i < |cart| :: cart[i].productId in shop.products
    ensures PlacedAsPromised(shop, cart, userId, orderId, Commit(shop, cart, userId, orderId))
  {
    CommitRecordsOrder(shop, cart, userId, orderId);
    CommitRecordsItems(shop, cart, userId, orderId);
    DecrementAllDecrements(shop.products, cart);
  }

  /**
   * Checkout, as the code does it: an empty cart does nothing; a line whose
   * product is missing or has less stock than the line's quantity aborts with
   * that line's name and changes nothing; otherwise the order is placed.
   */
  function Checkout(shop: Shop, cart: Cart, userId: int32, orderId: int32): (r: CheckoutResult)
    requires orderId !in shop.orders
    ensures |cart| == 0 ==> r == CheckoutResult(EmptyCart, shop, cart)
    ensures r.outcome.InsufficientStock? <==>
      |cart| > 0 && exists i | 0 <= i < |cart| :: !Stocked(shop.products, cart[i])
    ensures r.outcome.InsufficientStock? ==>
      && r.shop == shop && r.cart == cart
      && exists i | 0 <= i < |cart| ::
           && !Stocked(shop.products, cart[i]) && r.outcome.productName == cart[i].name
           && forall j | 0 <= j < i :: Stocked(shop.products, cart[j])
    ensures r.outcome.Placed? <==> |cart| > 0 && forall i | 0 <= i < |cart| :: Stocked(shop.products, cart[i])
    ensures r.outcome.Placed? ==> PlacedAsPromised(shop, cart, userId, orderId, r)
  {
    if |cart| == 0 then CheckoutResult(EmptyCart, shop, cart)
    else match FirstFailing(shop.products, cart, false)
      case Some(i) => CheckoutResult(InsufficientStock(cart[i].name), shop, cart)
      case None =>
        CommitAsPromised(shop, cart, userId, orderId);
        Commit(shop, cart, userId, orderId)
  }

  /** The amounts charged are the amounts the cart page showed. */
  lemma CheckoutChargesCartTotals(shop: Shop, cart: Cart, userId: int32, orderId: int32)
    requires orderId !in shop.orders
    ensures var r := Checkout(shop, cart, userId, orderId);
            r.outcome.Placed? ==>
              var o := r.shop.orders[orderId];
              Totals(o.subtotal, o.tax, o.total) == View(cart)
  {
  }

  /** No product's stock decrement leaves the 32-bit range. */
  predicate NoStockOverflow(products: ProductStore, cart: Cart) {
    forall i | 0 <= i < |cart| && cart[i].productId in products ::
      products[cart[i].productId].stock - cart[i].quantity <= Max
  }

  /**
   * With one line per product and every line validated, no product is asked
   * for more than it has (and, under the corrected check, for no less than 0).
   */
  lemma QuantityWithinStock(products: ProductStore, cart: Cart, k: int32, guarded: bool)
    requires DistinctProducts(cart)
    requires forall i | 0 <= i < |cart| :: Passes(products, cart[i], guarded)
    requires k in products && products[k].stock >= 0
    ensures QuantityOf(cart, k) <= products[k].stock
    ensures guarded ==> QuantityOf(cart, k) >= 0
    ensures QuantityOf(cart, k) != 0 ==> exists i | 0 <= i < |cart| :: cart[i].productId == k
  {
    QuantityOfDistinct(cart, k);
    if exists i | 0 <= i < |cart| :: cart[i].productId == k {
      var i :| 0 <= i < |cart| && cart[i].productId == k;
      assert Passes(products, cart[i], guarded);
    }
  }

  /** A decrement by at most the stock, and no more than it can wrap, keeps a product valid. */
  lemma DecrementKeepsProductValid(p: Product, q: int)
    requires q <= p.stock && p.stock - q <= Max
    requires ProductModel.Valid(p)
    ensures p.(stock := Wrap(p.stock - q)).stock == p.stock - q
    ensures ProductModel.Valid(p.(stock := Wrap(p.stock - q)))
  {
  }

  /**
   * With one line per product, stock that was non-negative stays non-negative:
   * each line passed the check, so its product had at least that quantity.
   */
  lemma CheckoutKeepsStockNonNegative(shop: Shop, cart: Cart, userId: int32, orderId: int32)
    requires orderId !in shop.orders
    requires DistinctProducts(cart)
    requires forall k | k in shop.products :: shop.products[k].stock >= 0
    requires NoStockOverflow(shop.products, cart)
    ensures var r := Checkout(shop, cart, userId, orderId);
            forall k | k in r.shop.products :: r.shop.products[k].stock >= 0
  {
    var r := Checkout(shop, cart, userId, orderId);
    if r.outcome.Placed? {
      DecrementKeepsStockNonNegative(shop.products, r.shop.products, cart);
    }
  }

  /** A decrement by lines that all passed the stock check, one line per product, none overflowing. */
  lemma DecrementKeepsStockNonNegative(before: ProductStore, after: ProductStore, cart: Cart)
    requires DistinctProducts(cart)
    requires forall i | 0 <= i < |cart| :: Passes(before, cart[i], false)
    requires forall k | k in before :: before[k].stock >= 0
    requires NoStockOverflow(before, cart)
    requires StockDecremented(before, after, cart)
    ensures forall k | k in after :: after[k].stock >= 0
  {
    forall k | k in after ensures after[k].stock >= 0 {
      QuantityWithinStock(before, cart, k, false);
      var q := QuantityOf(cart, k);
      if q != 0 {
        var i :| 0 <= i < |cart| && cart[i].productId == k;
        QuantityOfDistinct(cart, k);
      }
      assert before[k].stock - q <= Max;
    }
  }

  /**
   * The stock check lets a non-positive quantity through, and the decrement
   * then adds to the stock: from int.MaxValue it wraps around to int.MinValue.
   */
  lemma CheckoutStockWrapWitness()
    ensures var p := Product(1, "Lamp", Some("Desk lamp"), 10.0, 0x7fff_ffff, Some("Home"), true);
            var shop := Shop(map[1 := p], map[], []);
            var r := Checkout(shop, [CartLine(1, "Lamp", 10.0, -1)], 7, 1);
            && r.outcome == Placed(1)
            && r.shop.products[1].stock == Min
            && !ProductModel.Valid(r.shop.products[1])
  {
    var p := Product(1, "Lamp", Some("Desk lamp"), 10.0, 0x7fff_ffff, Some("Home"), true);
    var shop := Shop(map[1 := p], map[], []);
    var l := CartLine(1, "Lamp", 10.0, -1);
    assert Stocked(shop.products, l);
    var r := Checkout(shop, [l], 7, 1);
    SingleLineDecrement(shop.products, r.shop.products, l);
    assert Wrap(0x8000_0000) == Min;
  }

  /** With a single line, its product's stock drops by exactly the line's quantity (wrapped). */
  lemma SingleLineDecrement(before: ProductStore, after: ProductStore, l: CartLine)
    requires l.productId in before
    requires StockDecremented(before, after, [l])
    ensures after[l.productId].stock == Wrap(before[l.productId].stock - l.quantity)
  {
    assert [l][1..] == [];
    assert QuantityOf([l], l.productId) == l.quantity;
  }

  /**
   * A quantity of -1 passes the stock check and places an order whose subtotal
   * and total are negative, outside the range the order's annotations allow.
   */
  lemma CheckoutNegativeTotalWitness()
    ensures var p := Product(1, "Lamp", Some("Desk lamp"), 10.0, 5, Some("Home"), true);
            var shop := Shop(map[1 := p], map[], []);
            var r := Checkout(shop, [CartLine(1, "Lamp", 10.0, -1)], 7, 1);
            && r.outcome == Placed(1)
            && r.shop.orders[1].total == -10.0
            && !OrderModel.Valid(r.shop.orders[1])
  {
    var cart := [CartLine(1, "Lamp", 10.0, -1)];
    assert cart[1..] == [];
    assert Subtotal(cart) == Times(10.0, -1) + Subtotal([]);
  }

  /**
   * Checkout with the validation corrected: a line also fails when its
   * quantity is not positive. Everything else is as in `Checkout`.
   */
  function CheckoutGuarded(shop: Shop, cart: Cart, userId: int32, orderId: int32): (r: CheckoutResult)
    requires orderId !in shop.orders
    ensures |cart| == 0 ==> r == CheckoutResult(EmptyCart, shop, cart)
    ensures r.outcome.Placed? <==> |cart| > 0 && forall i | 0 <= i < |cart| :: Passes(shop.products, cart[i], true)
    ensures !r.outcome.Placed? ==> r.shop == shop && r.cart == cart
    ensures r.outcome.InsufficientStock? ==>
      exists i | 0 <= i < |cart| :: !Stocked(shop.products, cart[i]) && r.outcome.productName == cart[i].name
    ensures r.outcome.InvalidQuantity? ==>
      exists i | 0 <= i < |cart| :: cart[i].quantity <= 0 && r.outcome.productName == cart[i].name
    ensures r.outcome.Placed? ==> PlacedAsPromised(shop, cart, userId, orderId, r)
  {
    if |cart| == 0 then CheckoutResult(EmptyCart, shop, cart)
    else match FirstFailing(shop.products, cart, true)
      case Some(i) =>
        if !Stocked(shop.products, cart[i]) then CheckoutResult(InsufficientStock(cart[i].name), shop, cart)
        else CheckoutResult(InvalidQuantity(cart[i].name), shop, cart)
      case None =>
        CommitAsPromised(shop, cart, userId, orderId);
        Commit(shop, cart, userId, orderId)
  }

  /** When every quantity is positive the extra test never fires. */
  lemma {:induction false} FirstFailingGuardIrrelevant(products: ProductStore, cart: Cart)
    requires forall i | 0 <= i < |cart| :: cart[i].quantity > 0
    ensures FirstFailing(products, cart, true) == FirstFailing(products, cart, false)
    decreases |cart|
  {
    if |cart| > 0 {
      FirstFailingGuardIrrelevant(products, cart[1..]);
    }
  }

  /** The correction changes nothing for carts whose quantities are all positive. */
  lemma CheckoutGuardedAgrees(shop: Shop, cart: Cart, userId: int32, orderId: int32)
    requires orderId !in shop.orders
    requires forall i | 0 <= i < |cart| :: cart[i].quantity > 0
    ensures CheckoutGuarded(shop, cart, userId, orderId) == Checkout(shop, cart, userId, orderId)
  {
    FirstFailingGuardIrrelevant(shop.products, cart);
  }

  /**
   * The corrected checkout keeps the catalog valid: with one line per product,
   * each product loses at most the stock it had, so no stock goes negative and
   * nothing wraps.
   */
  lemma CheckoutGuardedKeepsCatalogValid(shop: Shop, cart: Cart, userId: int32, orderId: int32)
    requires orderId !in shop.orders
    requires ProductsController.WellKeyed(shop.products) && AllValid(shop.products)
    requires DistinctProducts(cart)
    ensures var r := CheckoutGuarded(shop, cart, userId, orderId);
            ProductsController.WellKeyed(r.shop.products) && AllValid(r.shop.products)
  {
    var r := CheckoutGuarded(shop, cart, userId, orderId);
    if r.outcome.Placed? {
      GuardedDecrementKeepsCatalogValid(shop.products, r.shop.products, cart);
    }
  }

  /** A decrement by lines that all passed the corrected check, one line per product. */
  lemma GuardedDecrementKeepsCatalogValid(before: ProductStore, after: ProductStore, cart: Cart)
    requires ProductsController.WellKeyed(before) && AllValid(before)
    requires DistinctProducts(cart)
    requires forall i | 0 <= i < |cart| :: Passes(before, cart[i], true)
    requires StockDecremented(before, after, cart)
    ensures ProductsController.WellKeyed(after) && AllValid(after)
  {
    forall k | k in after ensures after[k].id == k && ProductModel.Valid(after[k]) {
      QuantityWithinStock(before, cart, k, true);
      DecrementKeepsProductValid(before[k], QuantityOf(cart, k));
    }
  }

  /** With the cart's prices positive, the corrected checkout only places orders within their bounds. */
  lemma CheckoutGuardedOrderValid(shop: Shop, cart: Cart, userId: int32, orderId: int32)
    requires orderId !in shop.orders
    requires PricesPositive(cart)
    ensures var r := CheckoutGuarded(shop, cart, userId, orderId);
            r.outcome.Placed? ==> OrderModel.Valid(r.shop.orders[orderId])
  {
    var r := CheckoutGuarded(shop, cart, userId, orderId);
    if r.outcome.Placed? {
      assert forall i | 0 <= i < |cart| :: Passes(shop.products, cart[i], true);
      SubtotalNonNegative(cart);
      assert OrderModel.Valid(NewOrder());
    }
  }

  /** The items of one order, in table order (the `Include(o => o.Items)` of Details). */
  function ItemsOf(items: seq<OrderItem>, orderId: int32): (r: seq<OrderItem>)
    ensures |r| <= |items|
  {
    if |items| == 0 then []
    else
      var rest := ItemsOf(items[1..], orderId);
      if items[0].orderId == orderId then [items[0]] + rest else rest
  }

  /**
   * The items of an order are those of the table that carry its id, each as
   * often as the table holds it, and no others.
   */
  lemma {:induction false} ItemsOfSelects(items: seq<OrderItem>, orderId: int32)
    ensures forall i | 0 <= i < |ItemsOf(items, orderId)| :: ItemsOf(items, orderId)[i].orderId == orderId
    ensures forall it: OrderItem | it.orderId == orderId :: multiset(ItemsOf(items, orderId))[it] == multiset(items)[it]
    ensures forall it | it in ItemsOf(items, orderId) :: it in items
    decreases |items|
  {
    if |items| > 0 {
      assert items == [items[0]] + items[1..];
      ItemsOfSelects(items[1..], orderId);
    }
  }

  lemma {:induction false} ItemsOfAppend(a: seq<OrderItem>, b: seq<OrderItem>, orderId: int32)
    ensures ItemsOf(a + b, orderId) == ItemsOf(a, orderId) + ItemsOf(b, orderId)
    decreases |a|
  {
    if |a| == 0 {
      assert a + b == b;
    } else {
      assert (a + b)[1..] == a[1..] + b;
      ItemsOfAppend(a[1..], b, orderId);
    }
  }

  lemma {:induction false} ItemsOfAll(a: seq<OrderItem>, orderId: int32)
    requires forall i | 0 <= i < |a| :: a[i].orderId == orderId
    ensures ItemsOf(a, orderId) == a
    decreases |a|
  {
    if |a| > 0 {
      ItemsOfAll(a[1..], orderId);
      assert a == [a[0]] + a[1..];
    }
  }

  lemma {:induction false} ItemsOfNone(a: seq<OrderItem>, orderId: int32)
    requires forall i | 0 <= i < |a| :: a[i].orderId != orderId
    ensures ItemsOf(a, orderId) == []
    decreases |a|
  {
    if |a| > 0 {
      ItemsOfNone(a[1..], orderId);
    }
  }

  /** Details: the order with its items, or NotFound (`None`). Any signed-in user may view any order. */
  function Details(shop: Shop, id: int32): (r: Option<Order>)
    ensures r.None? <==> id !in shop.orders
    ensures r.Some? ==> r.value == shop.orders[id].(items := r.value.items)
    ensures r.Some? ==> forall i | 0 <= i < |r.value.items| ::
      r.value.items[i].orderId == id && r.value.items[i] in shop.orderItems
    ensures r.Some? ==> forall it: OrderItem | it.orderId == id :: multiset(r.value.items)[it] == multiset(shop.orderItems)[it]
  {
    ItemsOfSelects(shop.orderItems, id);
    if id in shop.orders then Some(shop.orders[id].(items := ItemsOf(shop.orderItems, id))) else None
  }

  /** Every order item belongs to a stored order (the foreign key on OrderId). */
  predicate ItemsLinked(shop: Shop) {
    forall i | 0 <= i < |shop.orderItems| :: shop.orderItems[i].orderId in shop.orders
  }

  /** The items of the new order are exactly those the commit wrote. */
  lemma CommitThenDetails(shop: Shop, cart: Cart, userId: int32, orderId: int32)
    requires orderId !in shop.orders
    requires ItemsLinked(shop)
    requires forall i | 0 <= i < |cart| :: cart[i].productId in shop.products
    ensures var after := Commit(shop, cart, userId, orderId).shop;
            ItemsOf(after.orderItems, orderId) == ItemsFor(shop.products, cart, orderId)
  {
    var items := ItemsFor(shop.products, cart, orderId);
    ItemsOfAppend(shop.orderItems, items, orderId);
    ItemsOfNone(shop.orderItems, orderId);
    ItemsOfAll(items, orderId);
  }

  /** Every item the commit writes belongs to the new order, so the foreign key keeps holding. */
  lemma CommitKeepsItemsLinked(shop: Shop, cart: Cart, userId: int32, orderId: int32)
    requires ItemsLinked(shop)
    requires forall i | 0 <= i < |cart| :: cart[i].productId in shop.products
    ensures ItemsLinked(Commit(shop, cart, userId, orderId).shop)
  {
    var after := Commit(shop, cart, userId, orderId).shop;
    var items := ItemsFor(shop.products, cart, orderId);
    var n := |shop.orderItems|;
    assert after.orderItems == shop.orderItems + items;
    forall i | 0 <= i < |after.orderItems| ensures after.orderItems[i].orderId in after.orders {
      if i >= n {
        assert after.orderItems[i] == items[i - n];
      } else {
        assert after.orderItems[i] == shop.orderItems[i];
      }
    }
  }

  /**
   * Checkout then Details: the page the checkout redirects to shows the new
   * order with exactly the items the checkout wrote, in cart order; and every
   * item still belongs to a stored order.
   */
  lemma CheckoutThenDetails(shop: Shop, cart: Cart, userId: int32, orderId: int32)
    requires orderId !in shop.orders
    requires ItemsLinked(shop)
    ensures var r := Checkout(shop, cart, userId, orderId);
            && ItemsLinked(r.shop)
            && (r.outcome.Placed? ==>
                  Details(r.shop, orderId) == Some(r.shop.orders[orderId].(items := ItemsFor(shop.products, cart, orderId))))
  {
    var r := Checkout(shop, cart, userId, orderId);
    if r.outcome.Placed? {
      assert forall i | 0 <= i < |cart| :: Stocked(shop.products, cart[i]);
      assert r == Commit(shop, cart, userId, orderId);
      CommitThenDetails(shop, cart, userId, orderId);
      CommitKeepsItemsLinked(shop, cart, userId, orderId);
    }
  }

  /** Staff (Admin or Empleado) see every order; anyone else sees their own. */
  predicate IsStaff(user: Principal) {
    IsInRole(user, Roles.Admin) || IsInRole(user, Roles.Employee)
  }

  predicate VisibleTo(o: Order, staff: bool, uid: int32) {
    staff || o.userId == uid
  }

  ghost function VisibleIn(os: set<Order>, staff: bool, uid: int32): set<Order> {
    set o | o in os && VisibleTo(o, staff, uid)
  }

  lemma VisibleInAdd(os: set<Order>, o: Order, staff: bool, uid: int32)
    ensures VisibleIn(os + {o}, staff, uid)
         == if VisibleTo(o, staff, uid) then VisibleIn(os, staff, uid) + {o} else VisibleIn(os, staff, uid)
  {
  }

  /** `OrderByDescending(o => o.Id)`. */
  predicate IdDescLe(a: Order, b: Order) {
    a.id >= b.id
  }

  lemma IdDescLeIsPreorder()
    ensures Total(IdDescLe) && Transitive(IdDescLe)
  {
  }

  /** The orders visible to `staff`/`uid`, each exactly once, newest id first. */
  method Listing(orders: OrderStore, staff: bool, uid: int32) returns (list: seq<Order>)
    ensures multiset(list) == multiset(VisibleIn(orders.Values, staff, uid))
    ensures forall o :: o in list <==> o in orders.Values && VisibleTo(o, staff, uid)
    ensures SortedBy(list, IdDescLe)
    ensures staff ==> multiset(list) == multiset(orders.Values)
  {
    IdDescLeIsPreorder();
    list := [];
    var rest := orders.Values;
    while rest != {}
      invariant rest <= orders.Values
      invariant multiset(list) == multiset(VisibleIn(orders.Values - rest, staff, uid))
      invariant SortedBy(list, IdDescLe)
      decreases rest
    {
      var o :| o in rest;
      var done := orders.Values - rest;
      assert o !in done;
      VisibleInAdd(done, o, staff, uid);
      if VisibleTo(o, staff, uid) {
        list := InsertBy(o, list, IdDescLe);
      }
      assert orders.Values - (rest - {o}) == done + {o};
      rest := rest - {o};
    }
    assert orders.Values - rest == orders.Values;
    MultisetMembers(list, VisibleIn(orders.Values, staff, uid));
    if staff {
      assert VisibleIn(orders.Values, staff, uid) == orders.Values;
    }
  }

  /**
   * The order listing. The current user's id is parsed first, for staff too, so
   * an unparsable NameIdentifier fails the request (`None`). Otherwise staff see
   * every order and anyone else only their own.
   */
  method Index(orders: OrderStore, user: Principal) returns (r: Option<seq<Order>>)
    ensures r.None? <==> CurrentUserId(user).None?
    ensures r.Some? ==>
      var uid := CurrentUserId(user).value;
      && (forall o :: o in r.value <==> o in orders.Values && (IsStaff(user) || o.userId == uid))
      && multiset(r.value) == multiset(VisibleIn(orders.Values, IsStaff(user), uid))
      && SortedBy(r.value, IdDescLe)
  {
    var parsed := CurrentUserId(user);
    if parsed.None? {
      return None;
    }
    var list := Listing(orders, IsStaff(user), parsed.value);
    r := Some(list);
  }
}
