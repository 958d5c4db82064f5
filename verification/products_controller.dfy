/**
 * The catalog actions: the filtered, name-ordered listing with its category
 * list, details, and create / edit / delete as operations on a store keyed by
 * product id.
 */
module ProductsController {
  import opened Wrappers
  import opened Int32
  import opened Text
  import opened Sorting
  import opened ProductModel

  type ProductStore = map<int32, Product>

  /** Every product is stored under its own id (the primary key). */
  predicate WellKeyed(store: ProductStore) {
    forall id | id in store :: store[id].id == id
  }

  /** Every stored product satisfies its annotations. */
  predicate AllValid(store: ProductStore) {
    forall id | id in store :: Valid(store[id])
  }

  /** The listing's optional filters, as they arrive from the query string. */
  datatype Query = Query(
    search: Option<string>,
    category: Option<string>,
    minPrice: Option<real>,
    maxPrice: Option<real>)

  const NoFilter := Query(None, None, None, None)

  /**
   * A product passes every supplied filter: the search text occurs in its Name or
   * its (non-null) Description, its Category equals the category filter, and its
   * price lies within the bounds. Blank search and category filters are ignored.
   */
  predicate Matches(p: Product, q: Query) {
    && (IsNullOrWhiteSpace(q.search)
        || Contains(p.name, q.search.value)
        || (p.description.Some? && Contains(p.description.value, q.search.value)))
    && (IsNullOrWhiteSpace(q.category) || p.category == q.category)
    && (q.minPrice.None? || p.price >= q.minPrice.value)
    && (q.maxPrice.None? || p.price <= q.maxPrice.value)
  }

  ghost function MatchingIn(ps: set<Product>, q: Query): set<Product> {
    set p | p in ps && Matches(p, q)
  }

  /** Ordering by Name (ordinal comparison). */
  predicate NameLe(a: Product, b: Product) {
    LexLe(a.name, b.name)
  }

  lemma NameLeIsPreorder()
    ensures Total(NameLe) && Transitive(NameLe)
  {
    forall a: Product, b: Product ensures NameLe(a, b) || NameLe(b, a) {
      LexLeTotal(a.name, b.name);
    }
    forall a: Product, b: Product, c: Product | NameLe(a, b) && NameLe(b, c) ensures NameLe(a, c) {
      LexLeTransitive(a.name, b.name, c.name);
    }
  }

  lemma LexLeIsPreorder()
    ensures Total(LexLe) && Transitive(LexLe)
  {
    forall a: string, b: string ensures LexLe(a, b) || LexLe(b, a) {
      LexLeTotal(a, b);
    }
    forall a: string, b: string, c: string | LexLe(a, b) && LexLe(b, c) ensures LexLe(a, c) {
      LexLeTransitive(a, b, c);
    }
  }

  lemma MatchingInAdd(ps: set<Product>, p: Product, q: Query)
    ensures MatchingIn(ps + {p}, q) == if Matches(p, q) then MatchingIn(ps, q) + {p} else MatchingIn(ps, q)
  {
  }

  /** The product listing: each matching product exactly once, ordered by Name. */
  method Index(store: ProductStore, q: Query) returns (list: seq<Product>)
    ensures multiset(list) == multiset(MatchingIn(store.Values, q))
    ensures forall p :: p in list <==> p in store.Values && Matches(p, q)
    ensures SortedBy(list, NameLe)
    ensures q == NoFilter ==> multiset(list) == multiset(store.Values)
  {
    NameLeIsPreorder();
    list := [];
    var rest := store.Values;
    while rest != {}
      invariant rest <= store.Values
      invariant multiset(list) == multiset(MatchingIn(store.Values - rest, q))
      invariant SortedBy(list, NameLe)
      decreases rest
    {
      var p :| p in rest;
      var done := store.Values - rest;
      assert p !in done;
      MatchingInAdd(done, p, q);
      if Matches(p, q) {
        list := InsertBy(p, list, NameLe);
      }
      assert store.Values - (rest - {p}) == done + {p};
      rest := rest - {p};
    }
    assert store.Values - rest == store.Values;
    MultisetMembers(list, MatchingIn(store.Values, q));
    if q == NoFilter {
      assert MatchingIn(store.Values, q) == store.Values;
    }
  }

  /** The distinct non-empty categories of the given products. */
  ghost function CategoriesIn(ps: set<Product>): set<string> {
    set p | p in ps && !IsNullOrEmpty(p.category) :: p.category.value
  }

  /** The category list: every non-empty category exactly once, in ascending order. */
  method Categories(store: ProductStore) returns (cats: seq<string>)
    ensures multiset(cats) == multiset(CategoriesIn(store.Values))
    ensures forall c :: c in cats <==> c != "" && exists p :: p in store.Values && p.category == Some(c)
    ensures SortedBy(cats, LexLe)
  {
    LexLeIsPreorder();
    cats := [];
    var rest := store.Values;
    while rest != {}
      invariant rest <= store.Values
      invariant multiset(cats) == multiset(CategoriesIn(store.Values - rest))
      invariant SortedBy(cats, LexLe)
      decreases rest
    {
      var p :| p in rest;
      var done := store.Values - rest;
      CategoriesInAdd(done, p);
      if !IsNullOrEmpty(p.category) {
        var c := p.category.value;
        MultisetMembers(cats, CategoriesIn(done));
        if c !in cats {
          cats := InsertBy(c, cats, LexLe);
        } else {
          assert CategoriesIn(done) + {c} == CategoriesIn(done);
        }
      }
      assert store.Values - (rest - {p}) == done + {p};
      rest := rest - {p};
    }
    assert store.Values - rest == store.Values;
    MultisetMembers(cats, CategoriesIn(store.Values));
    forall c ensures c in cats <==> c != "" && exists p :: p in store.Values && p.category == Some(c) {
      CategoriesInMembers(store.Values, c);
    }
  }

  lemma CategoriesInAdd(ps: set<Product>, p: Product)
    ensures CategoriesIn(ps + {p})
         == if IsNullOrEmpty(p.category) then CategoriesIn(ps) else CategoriesIn(ps) + {p.category.value}
  {
  }

  lemma CategoriesInMembers(ps: set<Product>, c: string)
    ensures c in CategoriesIn(ps) <==> c != "" && exists p :: p in ps && p.category == Some(c)
  {
    if c != "" && exists p :: p in ps && p.category == Some(c) {
      var p :| p in ps && p.category == Some(c);
      assert c in CategoriesIn(ps);
    }
  }

  /** Details: NotFound (`None`) for a missing or unknown id. */
  function Details(store: ProductStore, id: Option<int32>): (r: Option<Product>)
    ensures r.Some? <==> id.Some? && id.value in store
    ensures WellKeyed(store) && r.Some? ==> r.value.id == id.value && r.value in store.Values
  {
    if id.Some? && id.value in store then Some(store[id.value]) else None
  }

  datatype Outcome = Saved | Invalid | NotFound

  datatype StoreResult = StoreResult(outcome: Outcome, store: ProductStore)

  /**
   * Create: a product that fails its annotations is shown again and nothing is
   * stored; otherwise it is stored under the id the database assigns.
   */
  function Create(store: ProductStore, form: Product, freshId: int32): (r: StoreResult)
    requires freshId !in store
    ensures r.outcome == Saved <==> Valid(form)
    ensures r.outcome != Saved ==> r.store == store
    ensures r.outcome == Saved ==>
      && r.store.Keys == store.Keys + {freshId}
      && r.store[freshId] == form.(id := freshId)
      && forall k | k in store :: r.store[k] == store[k]
    ensures WellKeyed(store) && AllValid(store) ==> WellKeyed(r.store) && AllValid(r.store)
  {
    if !Valid(form) then StoreResult(Invalid, store)
    else StoreResult(Saved, store[freshId := form.(id := freshId)])
  }

  /**
   * Edit: a route id that differs from the form's id, or an id that is not
   * stored, is NotFound; an invalid form is shown again; otherwise the stored
   * record is replaced by the form.
   */
  function Edit(store: ProductStore, id: int32, form: Product): (r: StoreResult)
    ensures r.outcome == Saved <==> id == form.id && Valid(form) && id in store
    ensures r.outcome == NotFound <==> id != form.id || (Valid(form) && id !in store)
    ensures r.outcome != Saved ==> r.store == store
    ensures r.outcome == Saved ==>
      && r.store.Keys == store.Keys
      && r.store[id] == form
      && forall k | k in store && k != id :: r.store[k] == store[k]
    ensures WellKeyed(store) && AllValid(store) ==> WellKeyed(r.store) && AllValid(r.store)
  {
    if id != form.id then StoreResult(NotFound, store)
    else if !Valid(form) then StoreResult(Invalid, store)
    else if id !in store then StoreResult(NotFound, store)
    else StoreResult(Saved, store[id := form])
  }

  /** DeleteConfirmed: removes the given id, if stored, and nothing else. */
  function DeleteConfirmed(store: ProductStore, id: int32): (r: ProductStore)
    ensures r.Keys == store.Keys - {id}
    ensures forall k | k in r :: r[k] == store[k]
    ensures id !in store ==> r == store
    ensures WellKeyed(store) && AllValid(store) ==> WellKeyed(r) && AllValid(r)
  {
    store - {id}
  }
}
