/**
 * The catalog entity and the validity its data annotations demand
 * (checked by model binding before a product is created or edited).
 * Timestamps are not modelled.
 */
module ProductModel {
  import opened Wrappers
  import opened Int32
  import opened Text

  /**
   * `Description` and `Category` are null when the form leaves them empty; a
   * null `Name` is represented by "".
   */
  datatype Product = Product(
    id: int32,
    name: string,
    description: Option<string>,
    price: real,
    stock: int32,
    category: Option<string>,
    isActive: bool)

  const MaxNameLength: nat := 100
  const MaxDescriptionLength: nat := 500
  const MinPrice: real := 0.01
  const MaxCategoryLength: nat := 50

  /**
   * The annotations hold: Name is required (not blank) and at most 100 characters,
   * Description at most 500, Price at least 0.01, Stock between 0 and int.MaxValue,
   * Category at most 50. Description and Category are declared as non-nullable
   * strings in a nullable-aware project, which model binding treats as an
   * implicit `[Required]`: neither may be missing or blank.
   */
  predicate Valid(p: Product) {
    && !IsNullOrWhiteSpace(Some(p.name)) && |p.name| <= MaxNameLength
    && !IsNullOrWhiteSpace(p.description) && |p.description.value| <= MaxDescriptionLength
    && p.price >= MinPrice
    && p.stock >= 0
    && !IsNullOrWhiteSpace(p.category) && |p.category.value| <= MaxCategoryLength
  }

  /** A freshly constructed product: active, no stock, and not yet valid (no name, description, price or category). */
  function NewProduct(): (p: Product)
    ensures p.isActive
    ensures p.stock == 0 && p.description.None? && p.category.None?
    ensures !Valid(p)
  {
    Product(0, "", None, 0.0, 0, None, true)
  }
}
