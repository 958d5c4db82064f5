# OrderApp core in Dafny

A model of the order-taking core of OrderApp, an ASP.NET MVC shop. The model
covers five parts:

- **Shopping cart and checkout.** The session cart is a sequence of lines.
  `AddToCart` merges a product into its existing line or appends a new line.
  The cart page shows a subtotal, a tax of 0 and a total. `Checkout` checks
  every line against the stock before it changes anything. It then records a
  Pending order and one item per line, decrements each product's stock and
  empties the cart.
- **Order listing and details.** Admin and Empleado see every order, newest
  first; anyone else sees only their own orders. Details shows an order with its
  items, and any signed-in user may open any order, as the code does.
- **User administration.** Create, Edit and DeleteConfirmed act on a user
  store keyed by id. Passwords are stored as their hash. Roles are normalised
  into Admin, Empleado or Cliente.
- **Login.** It looks up the credentials, builds the claims (id, name, e-mail,
  normalised role) and chooses where to redirect. The NameIdentifier claim is
  parsed back as the current user id by the order actions.
- **Product catalog.** The listing applies its search, category and price
  filters and orders by name. The category list has each non-empty category
  once, in ascending order. Details, Create, Edit and DeleteConfirmed act on a
  product store keyed by id. The product's validity predicate comes from its
  data annotations.

Representation choices:

- The Products, Orders and Users tables are Dafny maps keyed by primary key.
  The id the database assigns to a new row is a parameter that must not
  already be a key. The OrderItems table is a sequence in insertion order,
  because an order's items are read back by filtering it.
- Money (C# `decimal`) is `real`.
- C# `int` is the subset type `int32`. The unchecked arithmetic of
  `p.Stock -= ci.Quantity` and `item.Quantity += qty` wraps around through
  `Int32.Wrap`.
- The SHA-256 hasher and `Url.IsLocalUrl` are function-valued parameters.
- Each action returns a result datatype naming the outcome (Saved, Invalid,
  NotFound, ...) together with the new state.
- The project file is not part of this model. Its nullable setting is taken
  to be enabled, as the `string?` parameters of `ProductsController.Index`
  and the `Category!` of line 35 indicate. Model binding then treats the
  non-nullable `Description` and `Category` of a product as required.
- A user form's `[Required]` checks on Password and Role are modelled, since
  the actions depend on them. The other annotations on a user (Name and Email
  required, the string lengths, the e-mail format) are one boolean parameter.

Role normalisation appears three times in the source: in user Create, in user
Edit and in Login. `Roles.NormalizeRole` models all three, and the lemmas in
`AuthController` show that login hands out exactly the role that Create or
Edit stored.

Files, in dependency order:

- `wrappers.dfy`, `int32.dfy`, `text.dfy`, `numerals.dfy` and `sorting.dfy`
  model the .NET library behaviour the controllers use.
- `product_model.dfy`, `order_model.dfy`, `user_model.dfy` and `roles.dfy` hold
  the entities.
- `products_controller.dfy`, `shopping_cart.dfy`, `orders_controller.dfy`,
  `users_controller.dfy` and `auth_controller.dfy` hold the actions.

The `CartItem` and `OrderItem` classes are not part of this model's source
files. Their fields are taken from how `OrdersController.cs` uses them (lines
45 and 85).

## Model

| member | source | states |
|---|---|---|
| Int32.Wrap | OrderApp/OrderApp/Controllers/OrdersController.cs:86 | The unchecked 32-bit result is congruent to the true result modulo 2^32, and equals it whenever it fits |
| Int32.WrapUnique | OrderApp/OrderApp/Controllers/OrdersController.cs:86 | The wrapped value is the only int32 congruent to the true result |
| Int32.WrapSubtract | OrderApp/OrderApp/Controllers/OrdersController.cs:82-87 | Two successive wrapped stock decrements are one wrapped decrement by their sum |
| Text.Trim | OrderApp/OrderApp/Controllers/UsersController.cs:41 | A trimmed string neither starts nor ends with white space |
| Text.TrimWithShape | OrderApp/OrderApp/Controllers/UsersController.cs:41 | Trim keeps exactly the slice after the leading white run; everything after the slice is white, and the slice has no white ends |
| Text.TrimIdempotent | OrderApp/OrderApp/Controllers/AuthController.cs:36 | Trimming twice is trimming once |
| Text.TrimWithNoWhiteEnds | OrderApp/OrderApp/Controllers/UsersController.cs:41 | A string without white ends is unchanged by trimming |
| Text.TrimWithPadded | OrderApp/OrderApp/Controllers/UsersController.cs:79 | Trimming removes exactly the white padding around a string with non-white ends |
| Text.BlankIffTrimEmpty | OrderApp/OrderApp/Controllers/UsersController.cs:85 | `IsNullOrWhiteSpace` of a non-null string holds exactly when trimming leaves nothing |
| Text.Contains | OrderApp/OrderApp/Controllers/ProductsController.cs:22 | The substring search succeeds exactly when the text occurs at some index |
| Text.LexLeTotal | OrderApp/OrderApp/Controllers/ProductsController.cs:42 | Any two names are comparable under ordinal ordering |
| Text.LexLeTransitive | OrderApp/OrderApp/Controllers/ProductsController.cs:42 | Ordinal ordering is transitive |
| Text.LexLeAntisymmetric | OrderApp/OrderApp/Controllers/ProductsController.cs:37 | Two strings ordered both ways are equal, so ordinal ordering is a total order on strings |
| Numerals.NatToString | OrderApp/OrderApp/Controllers/AuthController.cs:44 | `ToString` of a non-negative id is a non-empty run of digits whose value is the id |
| Numerals.IntToString | OrderApp/OrderApp/Controllers/AuthController.cs:44 | `ToString` of an int is never empty; ParseIntToString shows it parses back |
| Numerals.ParseInt | OrderApp/OrderApp/Controllers/OrdersController.cs:25 | `int.Parse` with surrounding white space, an optional sign and digits, None outside 32 bits; ParseIntToString states its round trip |
| Numerals.ParseIntToString | OrderApp/OrderApp/Controllers/OrdersController.cs:25 | Parsing the NameIdentifier text written at login gives back the user id |
| Roles.NormalizeRole | OrderApp/OrderApp/Controllers/UsersController.cs:41-44 | The role is always Admin, Empleado or Cliente; Admin exactly when the trimmed input equals "admin" ignoring case; Empleado likewise for "empleado"; null gives Cliente |
| Roles.TrimmedIsFixed | OrderApp/OrderApp/Controllers/UsersController.cs:41 | The default "Cliente" and the other role names survive the trim unchanged |
| Roles.NormalizeCanonical | OrderApp/OrderApp/Controllers/AuthController.cs:36-40 | A stored canonical role normalises to itself at login |
| Roles.NormalizeRoleIdempotent | OrderApp/OrderApp/Controllers/UsersController.cs:79-82 | Normalising a normalised role changes nothing |
| Roles.NormalizeRoleIgnoresPadding | OrderApp/OrderApp/Controllers/UsersController.cs:41 | White space around the role text does not change the role |
| Roles.NormalizeRoleCaseInsensitive | OrderApp/OrderApp/Controllers/UsersController.cs:79-82 | Two role texts whose trimmed forms are equal ignoring case give the same role |
| Roles.NormalizeRoleIgnoresCase | OrderApp/OrderApp/Controllers/UsersController.cs:42 | "ADMIN" normalises to Admin |
| Roles.NormalizeRoleWholeWordOnly | OrderApp/OrderApp/Controllers/UsersController.cs:44 | Text that only starts like a role name ("Administrador") becomes Cliente |
| ProductModel.Valid | OrderApp/OrderApp/Models/Product.cs:10-32 | Name, Description and Category present and not blank, within 100, 500 and 50 characters; price at least 0.01; stock not negative |
| ProductModel.NewProduct | OrderApp/OrderApp/Models/Product.cs:41 | A new product is active, has no stock, no description and no category, and is not yet valid |
| OrderModel.Valid | OrderApp/OrderApp/Models/Orders.cs:14-24 | Status present, not blank and at most 20 characters; subtotal, tax and total not negative |
| OrderModel.NewOrder | OrderApp/OrderApp/Models/Orders.cs:14-27 | A new order is Pending with no items and zero amounts, and satisfies the order bounds |
| ProductsController.NameLeIsPreorder | OrderApp/OrderApp/Controllers/ProductsController.cs:42 | Ordering products by name is total and transitive |
| ProductsController.LexLeIsPreorder | OrderApp/OrderApp/Controllers/ProductsController.cs:37 | Ordering categories is total and transitive |
| ProductsController.Matches | OrderApp/OrderApp/Controllers/ProductsController.cs:21-31 | A product passes when the search text occurs in its name or its non-null description, its category equals the category filter, and its price lies within the bounds; each blank or missing filter is skipped |
| ProductsController.Index | OrderApp/OrderApp/Controllers/ProductsController.cs:17-44 | The listing holds each product passing every supplied filter exactly once, and no other, sorted by name; blank filters are ignored, and with no filter every product is listed |
| ProductsController.Categories | OrderApp/OrderApp/Controllers/ProductsController.cs:33-38 | The category list holds each non-empty category of some product exactly once, and nothing else, in ascending order |
| ProductsController.CategoriesInMembers | OrderApp/OrderApp/Controllers/ProductsController.cs:34-35 | A category is listed exactly when it is non-empty and some product has it |
| ProductsController.Details | OrderApp/OrderApp/Controllers/ProductsController.cs:47-53 | NotFound exactly for a missing or unknown id; otherwise the stored product with that id |
| ProductsController.Create | OrderApp/OrderApp/Controllers/ProductsController.cs:62-72 | Saved exactly when the product is valid, description and category included; it is then stored under the new id and nothing else changes; the store stays keyed and valid |
| ProductsController.Edit | OrderApp/OrderApp/Controllers/ProductsController.cs:86-105 | NotFound exactly for a mismatched id or, with a valid form (description and category included), an unknown id; Saved replaces only that record; otherwise nothing changes |
| ProductsController.DeleteConfirmed | OrderApp/OrderApp/Controllers/ProductsController.cs:119-125 | Removes exactly the given id, if present, and leaves every other product as it was |
| ShoppingCart.View | OrderApp/OrderApp/Controllers/OrdersController.cs:27-34 | The subtotal is the sum of price times quantity over the lines, the tax is 0 and the total equals the subtotal |
| ShoppingCart.Subtotal | OrderApp/OrderApp/Controllers/OrdersController.cs:30 | The sum over the lines of unit price times quantity; SubtotalAppend, SubtotalUpdate and SubtotalNonNegative state its properties |
| ShoppingCart.SubtotalAppend | OrderApp/OrderApp/Controllers/OrdersController.cs:30 | The subtotal of two carts joined is the sum of their subtotals |
| ShoppingCart.SubtotalUpdate | OrderApp/OrderApp/Controllers/OrdersController.cs:30 | Replacing one line changes the subtotal by the difference of the two line amounts |
| ShoppingCart.SubtotalNonNegative | OrderApp/OrderApp/Controllers/OrdersController.cs:30 | With non-negative prices and quantities the subtotal is non-negative |
| ShoppingCart.FindLine | OrderApp/OrderApp/Controllers/OrdersController.cs:43 | The index found is the first line for the product; none is found exactly when no line has it |
| ShoppingCart.AddToCart | OrderApp/OrderApp/Controllers/OrdersController.cs:37-51 | An unknown product leaves the cart unchanged; a product with a line gets qty added to its first line only (wrapped); a new product gets one line at the end with its current name and price; distinct product ids stay distinct |
| ShoppingCart.AddToCartSubtotalNewLine | OrderApp/OrderApp/Controllers/OrdersController.cs:44-45 | Appending raises the subtotal by the current price times qty |
| ShoppingCart.AddToCartSubtotalMerge | OrderApp/OrderApp/Controllers/OrdersController.cs:46-47 | Merging raises the subtotal by the line's snapshot price times qty, when the quantity does not wrap |
| ShoppingCart.AddToCartKeepsCartInvariant | OrderApp/OrderApp/Controllers/OrdersController.cs:43-47 | Over a valid catalog, AddToCart keeps product ids distinct and prices positive |
| OrdersController.FirstFailing | OrderApp/OrderApp/Controllers/OrdersController.cs:60-67 | The validation loop stops at the first failing line, and finds none exactly when every line passes |
| OrdersController.QuantityOfDistinct | OrderApp/OrderApp/Controllers/OrdersController.cs:82-87 | With one line per product, the quantity taken from a product is its line's quantity, or 0 without a line |
| OrdersController.DecrementLine | OrderApp/OrderApp/Controllers/OrdersController.cs:86 | One decrement keeps the set of product ids; DecrementLineAt states its effect |
| OrdersController.DecrementLineAt | OrderApp/OrderApp/Controllers/OrdersController.cs:86 | One decrement lowers its own product's stock by the line quantity and leaves every other product alone |
| OrdersController.DecrementAll | OrderApp/OrderApp/Controllers/OrdersController.cs:82-87 | The decrement loop keeps the set of product ids; DecrementAllAt states its effect on each product |
| OrdersController.DecrementAllAt | OrderApp/OrderApp/Controllers/OrdersController.cs:82-87 | After the loop each product's stock is its old stock minus everything the cart holds of it, wrapped; its other fields are unchanged |
| OrdersController.ItemsFor | OrderApp/OrderApp/Controllers/OrdersController.cs:82-85 | One item per line, in cart order, with the line's quantity and the product's current id and price |
| OrdersController.Commit | OrderApp/OrderApp/Controllers/OrdersController.cs:70-90 | The commit always places the order under the new id and empties the cart; the orders gain exactly that id, the products keep theirs, and the items table grows by one row per line |
| OrdersController.CommitRecordsOrder | OrderApp/OrderApp/Controllers/OrdersController.cs:70-80 | The new order is Pending, for the user, with the cart's subtotal, tax 0 and total equal to subtotal; other orders are unchanged |
| OrdersController.CommitRecordsItems | OrderApp/OrderApp/Controllers/OrdersController.cs:82-85 | The items table gains one item per line after the existing items, which are kept |
| OrdersController.DecrementAllDecrements | OrderApp/OrderApp/Controllers/OrdersController.cs:82-87 | Every product's stock drops by what the cart holds of it, and no product is added or removed |
| OrdersController.CommitAsPromised | OrderApp/OrderApp/Controllers/OrdersController.cs:70-90 | The commit records the order and the items, decrements the stock and empties the cart |
| OrdersController.Checkout | OrderApp/OrderApp/Controllers/OrdersController.cs:54-92 | An empty cart does nothing; a missing product or short stock on any line aborts with the first such line's name and changes nothing; otherwise the order is placed as above |
| OrdersController.CheckoutChargesCartTotals | OrderApp/OrderApp/Controllers/OrdersController.cs:74-76 | The placed order's subtotal, tax and total are the figures the cart page showed |
| OrdersController.QuantityWithinStock | OrderApp/OrderApp/Controllers/OrdersController.cs:63 | With one line per product and every line checked, no product is asked for more than its stock |
| OrdersController.DecrementKeepsProductValid | OrderApp/OrderApp/Models/Product.cs:25-28 | A decrement by at most the stock that does not overflow keeps a product valid |
| OrdersController.CheckoutKeepsStockNonNegative | OrderApp/OrderApp/Controllers/OrdersController.cs:60-87 | With one line per product and no overflowing line, non-negative stock stays non-negative |
| OrdersController.CheckoutStockWrapWitness | OrderApp/OrderApp/Controllers/OrdersController.cs:86 | A quantity of -1 against a stock of int.MaxValue is accepted, and the stock wraps to int.MinValue |
| OrdersController.CheckoutNegativeTotalWitness | OrderApp/OrderApp/Controllers/OrdersController.cs:63 | A quantity of -1 is accepted and places an order whose total is negative |
| OrdersController.CheckoutGuarded | OrderApp/OrderApp/Controllers/OrdersController.cs:60-67 | The corrected checkout also rejects non-positive quantities, and otherwise behaves as Checkout |
| OrdersController.CheckoutGuardedAgrees | OrderApp/OrderApp/Controllers/OrdersController.cs:60-67 | On carts whose quantities are all positive, the corrected checkout equals the one as written |
| OrdersController.CheckoutGuardedKeepsCatalogValid | OrderApp/OrderApp/Models/Product.cs:25-28 | With one line per product, the corrected checkout keeps every product valid, stock bounds included |
| OrdersController.CheckoutGuardedOrderValid | OrderApp/OrderApp/Models/Orders.cs:17-24 | With positive cart prices, every order the corrected checkout places satisfies the order bounds |
| OrdersController.ItemsOf | OrderApp/OrderApp/Controllers/OrdersController.cs:107 | Loading an order's items selects from the table, so it returns at most as many rows; ItemsOfSelects states which |
| OrdersController.ItemsOfSelects | OrderApp/OrderApp/Controllers/OrdersController.cs:107 | The items loaded for an order are those of the table that carry its id, each as often as stored |
| OrdersController.Details | OrderApp/OrderApp/Controllers/OrdersController.cs:105-110 | NotFound exactly for an unknown id; otherwise the stored order, every field unchanged, with exactly its items |
| OrdersController.CommitThenDetails | OrderApp/OrderApp/Controllers/OrdersController.cs:82-85 | The items loaded for the new order are exactly those the checkout wrote, in cart order |
| OrdersController.CommitKeepsItemsLinked | OrderApp/OrderApp/Controllers/OrdersController.cs:85 | Every item still belongs to a stored order after the commit |
| OrdersController.CheckoutThenDetails | OrderApp/OrderApp/Controllers/OrdersController.cs:79-91 | The Details page the checkout redirects to shows the new order with the items written for it |
| OrdersController.IdDescLeIsPreorder | OrderApp/OrderApp/Controllers/OrdersController.cs:99 | Descending id order is total and transitive |
| OrdersController.Listing | OrderApp/OrderApp/Controllers/OrdersController.cs:99-100 | The orders visible to the caller, each exactly once, newest id first; staff see every order |
| OrdersController.Index | OrderApp/OrderApp/Controllers/OrdersController.cs:94-103 | An unparsable current user id fails the request; otherwise Admin and Empleado see every order and anyone else exactly their own |
| UsersController.FormValid | OrderApp/OrderApp/Models/User.cs:17-22 | A form is valid when the other annotations hold and Password and Role are both present and not blank |
| UsersController.Create | OrderApp/OrderApp/Controllers/UsersController.cs:36-53 | Saved exactly for a valid form, non-blank password and role included, with an unused address; a blank password or role is Invalid; the new user holds the hash of the password and the normalised role, and nothing else changes |
| UsersController.EditWith | OrderApp/OrderApp/Controllers/UsersController.cs:67-91 | For a given validation verdict: NotFound for a mismatched id or, when valid, an unknown id; Saved overwrites only name, e-mail and role, and the password only when a non-blank one is supplied; id and creation time are kept |
| UsersController.Edit | OrderApp/OrderApp/Controllers/UsersController.cs:67-91 | As EditWith with Password and Role required: a blank password is Invalid, and every saved edit replaces the password hash |
| UsersController.EditOptionalPassword | OrderApp/OrderApp/Controllers/UsersController.cs:84-86 | As EditWith with only Role required: a saved edit with a blank password keeps the stored hash and changes only name, e-mail and role |
| UsersController.EditBlankPasswordWitness | OrderApp/OrderApp/Controllers/UsersController.cs:84-86 | An edit with the password left blank is shown again by Edit, and saved with the old hash by EditOptionalPassword |
| UsersController.DeleteConfirmed | OrderApp/OrderApp/Controllers/UsersController.cs:105-112 | Removes exactly the given id, if present, and leaves every other user as it was |
| UsersController.StoreKeepsInvariant | OrderApp/OrderApp/Data/ApplicationDbContext.cs:25-27 | Storing a user under its own id with an unused address keeps the store keyed and the addresses unique |
| AuthController.CurrentUserId | OrderApp/OrderApp/Controllers/OrdersController.cs:25 | `int.Parse` of the NameIdentifier claim, None where it throws; ClaimsFor shows it returns the signed-in user's id |
| AuthController.ClaimsFor | OrderApp/OrderApp/Controllers/AuthController.cs:42-48 | The NameIdentifier claim parses back to the user's id; name and e-mail are copied; the role claim is the normalised role |
| AuthController.RedirectAfterLogin | OrderApp/OrderApp/Controllers/AuthController.cs:54-57 | To returnUrl exactly when it is non-empty and local, otherwise to the home page |
| AuthController.Login | OrderApp/OrderApp/Controllers/AuthController.cs:25-58 | Rejected exactly when no user has the address and the password's hash; otherwise the claims of such a user, the only one when addresses are unique |
| AuthController.LoginRoleMatchesStoredRole | OrderApp/OrderApp/Controllers/AuthController.cs:36-40 | Login hands out exactly the role Create or Edit stored |
| AuthController.CreatedUserCanLogIn | OrderApp/OrderApp/Controllers/AuthController.cs:27-28 | A user saved by Create logs in with its password, is the only match, and gets its own id and role as claims |

## Left out

- Session storage of the cart as JSON, views, ViewBag, TempData messages and async/await are not modelled. They carry no logic the actions depend on.
- The product and order timestamps (`CreatedAt`, `UpdatedAt`) are not modelled. A user's `CreatedAt` is: Create sets it from a clock parameter, and Edit keeps it.
- The two `SaveChanges` calls of checkout and any concurrent request are treated as one sequential step. The model is single-threaded.
- `SimpleHasher.Hash` (SHA-256 as hex) is an uninterpreted function parameter, and so is `Url.IsLocalUrl`.
- String comparison and `Contains` are ordinal. The database's default collation, which may compare case-insensitively, is not modelled.
- Case-insensitive role comparison folds only the ASCII letters. Characters are Dafny `char`s, not UTF-16 code units.
- `decimal` overflow and rounding are not modelled, because money is `real`.
- The price bound `Range(0.01, double.MaxValue)` is taken as `price >= 0.01`; the conversion of the bounds to `double` is not modelled.
- The user model-state check other than the Password and Role `[Required]` checks (Name and Email required, string lengths, the e-mail format validator) is an opaque boolean. The e-mail format check is a library validator.
- UsersController.Create, UsersController.Edit: since Role is required, the `?? "Cliente"` default is never used there. `NormalizeRole` still maps a missing role to Cliente, as the code does in all three places.
- AuthController.Login: the password is a non-null string. A post without one reaches `SimpleHasher.Hash(null)` (AuthController.cs line 27), which throws in `Encoding.UTF8.GetBytes` (Program.cs line 84); that exception path is not modelled.
- A null product `Name` is represented by the empty string; validity rejects both.
- The user Index, Details and Delete GET pages and the product Create, Edit and Delete GET pages only display data, so they are not modelled.
- Logout and AccessDenied only call the framework, so they are not modelled.
- ProductsController.Create: the bound `Id` is replaced by the id the database assigns. The case where a posted non-zero `Id` makes the insert fail is not modelled.
- UsersController.Create, UsersController.Edit: the unique index rejects a duplicate e-mail address when saving. The model returns `Conflict` with the store unchanged, where the application raises an unhandled database error.
- AuthController.Login: the database's `FirstOrDefault` may return any matching user, so the model may pick any match. With unique addresses there is only one.
- OrdersController.Index: the current user id is taken from the NameIdentifier claim, and Checkout receives that id already parsed.
- OrdersController.CheckoutKeepsStockNonNegative: requires `NoStockOverflow` as well as one line per product. Without it the claim is false: a negative quantity against a stock of int.MaxValue wraps (see Findings).

## Findings

| source | as written | input that shows it | evidently intended | confidence | as-written member | corrected member |
|---|---|---|---|---|---|---|
| OrderApp/OrderApp/Controllers/OrdersController.cs:63 | The stock check `p.Stock < ci.Quantity` lets a zero or negative quantity through, and the order amounts are computed from it | A cart line for a product with stock 5, price 10.0 and quantity -1 places an order with subtotal and total -10.0 | Orders satisfy their `Range(0, …)` bounds on Subtotal and Total (Orders.cs lines 17-24), so non-positive quantities are rejected | not executed | OrdersController.CheckoutNegativeTotalWitness | OrdersController.CheckoutGuardedOrderValid |
| OrderApp/OrderApp/Controllers/UsersController.cs:84-86 | The edit keeps the old password when the form's password is blank, but `[Required]` on Password (User.cs lines 17-19) makes the model state invalid for a blank password, so line 70 shows the form again first and the keep branch never runs | Editing a user's name with the password field left empty returns the form instead of saving | A blank password on edit keeps the stored hash, as the comment at line 84 says | not executed | UsersController.EditBlankPasswordWitness | UsersController.EditOptionalPassword |
| OrderApp/OrderApp/Controllers/OrdersController.cs:86 | `p.Stock -= ci.Quantity` with a negative quantity adds to the stock, and the unchecked addition wraps | A product with stock 2147483647 and a cart line of quantity -1 ends with stock -2147483648 | Stock stays within `Range(0, int.MaxValue)` (Product.cs lines 25-28) after checkout | not executed | OrdersController.CheckoutStockWrapWitness | OrdersController.CheckoutGuardedKeepsCatalogValid |
