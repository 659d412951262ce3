/**
 ProductController: which products an actor may see, the listing pipeline of
 Index (visibility filter, name search, sort by name, one page of five) and
 the permission gate of Details.
 */
module ProductCatalog {
  import opened Wrappers
  import opened Models
  import opened Query
  import opened Text

  const PageSize: nat := 5

  /** The sort order that selects descending names; any other value sorts ascending. */
  const NameDescending: string := "name_desc"

  /**
   The listing's visibility filter: the actor is an admin, or created the
   product, or holds a grant on it, found among the product's loaded
   permissions, that allows viewing.
   */
  predicate Visible(actor: Actor, p: Product) {
    || actor.isAdmin
    || p.createdByUserId == actor.userId
    || exists g | g in p.permissions :: Some(g.userId) == actor.userId && g.canView
  }

  /**
   CanViewProduct, the check Details makes: the same three alternatives, with
   the grant looked up in the ProductPermissions table by product id.
   */
  predicate CanViewProduct(actor: Actor, p: Product, grants: seq<ProductPermission>) {
    if actor.isAdmin then true
    else
      || p.createdByUserId == actor.userId
      || exists g | g in grants :: g.productId == p.id && Some(g.userId) == actor.userId && g.canView
  }

  /** The product's loaded permissions are exactly the table rows that name it. */
  ghost predicate Linked(p: Product, grants: seq<ProductPermission>) {
    forall g :: g in p.permissions <==> g in grants && g.productId == p.id
  }

  /** The detail check and the listing filter give the same answer on every product. */
  lemma CanViewMatchesVisible(actor: Actor, p: Product, grants: seq<ProductPermission>)
    requires Linked(p, grants)
    ensures CanViewProduct(actor, p, grants) == Visible(actor, p)
  {
  }

  function VisibleProducts(products: seq<Product>, actor: Actor): seq<Product> {
    Filter(products, (p: Product) => Visible(actor, p))
  }

  /** A null or empty search term selects everything. */
  predicate NoSearch(searchName: Option<string>) {
    searchName.None? || searchName.value == ""
  }

  /**
   The optional name filter of Index: with a search term, a product is kept
   iff its name contains the term; without one nothing is dropped.
   */
  function Search(products: seq<Product>, searchName: Option<string>): (r: seq<Product>)
    ensures NoSearch(searchName) ==> r == products
    ensures !NoSearch(searchName) ==>
      forall p :: p in r <==> p in products && Contains(p.name, searchName.value)
  {
    if NoSearch(searchName) then products
    else Filter(products, (p: Product) => Contains(p.name, searchName.value))
  }

  predicate NameAscending(a: Product, b: Product) { NameLe(a.name, b.name) }

  predicate NameDescendingOrder(a: Product, b: Product) { NameLe(b.name, a.name) }

  lemma NameOrdersArePreorders()
    ensures TotalPreorder(NameAscending)
    ensures TotalPreorder(NameDescendingOrder)
  {
    forall a: Product, b: Product ensures NameAscending(a, b) || NameAscending(b, a) {
      NameLeTotal(a.name, b.name);
    }
    forall a: Product, b: Product ensures NameDescendingOrder(a, b) || NameDescendingOrder(b, a) {
      NameLeTotal(a.name, b.name);
    }
    forall a: Product, b: Product, c: Product | NameAscending(a, b) && NameAscending(b, c)
      ensures NameAscending(a, c)
    {
      NameLeTransitive(a.name, b.name, c.name);
    }
    forall a: Product, b: Product, c: Product | NameDescendingOrder(a, b) && NameDescendingOrder(b, c)
      ensures NameDescendingOrder(a, c)
    {
      NameLeTransitive(c.name, b.name, a.name);
    }
  }

  function SortByName(products: seq<Product>, sortOrder: Option<string>): (r: seq<Product>)
    ensures multiset(r) == multiset(products)
  {
    if sortOrder == Some(NameDescending) then SortBy(products, NameDescendingOrder)
    else SortBy(products, NameAscending)
  }

  /** The whole filtered and sorted list, before paging: what Index counts. */
  function Listing(products: seq<Product>, actor: Actor, searchName: Option<string>, sortOrder: Option<string>): (r: seq<Product>)
    ensures forall p :: multiset(r)[p] ==
                        if Visible(actor, p) && (NoSearch(searchName) || Contains(p.name, searchName.value))
                        then multiset(products)[p] else 0
  {
    SortByName(Search(VisibleProducts(products, actor), searchName), sortOrder)
  }

  /** The number of pages of five needed for `totalItems` products (a ceiling). */
  function TotalPages(totalItems: nat): (r: nat)
    ensures r * PageSize >= totalItems
    ensures r > 0 ==> (r - 1) * PageSize < totalItems
  {
    (totalItems + PageSize - 1) / PageSize
  }

  /** What Index hands to its view: the page of products and the pager's values. */
  datatype ProductPage = ProductPage(
    items: seq<Product>,
    currentPage: int,
    totalPages: nat,
    searchName: Option<string>,
    sortOrder: Option<string>)

  /** The offset `(page - 1) * pageSize`, computed in 32-bit `int` as the source does. */
  function PageOffset(page: int): int
    requires 1 <= page <= Int32Max
  {
    Wrap32((page - 1) * PageSize)
  }

  /** The last page number whose offset does not wrap. */
  const LastExactPage: int := 429496730

  /** The offset is the exact (page - 1) * 5 exactly up to LastExactPage; beyond it, it wraps. */
  lemma PageOffsetRange(page: int)
    requires 1 <= page <= Int32Max
    ensures PageOffset(page) == (page - 1) * PageSize <==> page <= LastExactPage
  {
  }

  function Index(products: seq<Product>, actor: Actor, searchName: Option<string>, sortOrder: Option<string>, page: int): (r: ProductPage)
    requires 1 <= page <= Int32Max
    ensures |r.items| <= PageSize
    ensures forall k :: 0 <= k < |r.items| ==> r.items[k] in Listing(products, actor, searchName, sortOrder)
    ensures r.totalPages * PageSize >= |Listing(products, actor, searchName, sortOrder)|
    ensures r.currentPage == page && r.searchName == searchName && r.sortOrder == sortOrder
  {
    var listed := Listing(products, actor, searchName, sortOrder);
    var items := Take(Skip(listed, PageOffset(page)), PageSize);
    assert forall k :: 0 <= k < |items| ==> items[k] == listed[Max(PageOffset(page), 0) + k];
    ProductPage(
      items,
      page,
      TotalPages(|listed|),
      searchName,
      sortOrder)
  }

  /** A product is listed iff it is in the catalogue, visible to the actor and matches the search. */
  lemma ListingMembers(products: seq<Product>, actor: Actor, searchName: Option<string>, sortOrder: Option<string>)
    ensures forall p :: p in Listing(products, actor, searchName, sortOrder) <==>
      && p in products
      && (actor.isAdmin || p.createdByUserId == actor.userId
          || exists g | g in p.permissions :: Some(g.userId) == actor.userId && g.canView)
      && (NoSearch(searchName) || Contains(p.name, searchName.value))
  {
    var selected := Search(VisibleProducts(products, actor), searchName);
    var listed := Listing(products, actor, searchName, sortOrder);
    assert multiset(listed) == multiset(selected);
    forall p ensures p in listed <==> p in selected {
      assert p in listed <==> p in multiset(listed);
      assert p in selected <==> p in multiset(selected);
    }
  }

  /**
   The listing holds each selected product as often as the selection does,
   and is sorted by name, descending exactly when the sort order is
   "name_desc".
   */
  lemma ListingSortedPermutation(products: seq<Product>, actor: Actor, searchName: Option<string>, sortOrder: Option<string>)
    ensures multiset(Listing(products, actor, searchName, sortOrder))
         == multiset(Search(VisibleProducts(products, actor), searchName))
    ensures sortOrder == Some(NameDescending) ==>
      Sorted(Listing(products, actor, searchName, sortOrder), NameDescendingOrder)
    ensures sortOrder != Some(NameDescending) ==>
      Sorted(Listing(products, actor, searchName, sortOrder), NameAscending)
  {
    NameOrdersArePreorders();
    var selected := Search(VisibleProducts(products, actor), searchName);
    if sortOrder == Some(NameDescending) {
      SortBySorted(selected, NameDescendingOrder);
    } else {
      SortBySorted(selected, NameAscending);
    }
  }

  /**
   The page is the slice [offset, offset + 5) of the whole listing, clipped
   to its length, where the offset is (page-1)*5 in 32-bit arithmetic and a
   negative offset skips nothing; the page count covers the whole listing.
   */
  lemma IndexPage(products: seq<Product>, actor: Actor, searchName: Option<string>, sortOrder: Option<string>, page: int)
    requires 1 <= page <= Int32Max
    ensures var listed := Listing(products, actor, searchName, sortOrder);
            var r := Index(products, actor, searchName, sortOrder, page);
            var start := Max(PageOffset(page), 0);
            && r.items == listed[Min(start, |listed|)..Min(start + PageSize, |listed|)]
            && |r.items| <= PageSize
            && (forall k :: 0 <= k < |r.items| ==> r.items[k] == listed[start + k])
            && r.totalPages * PageSize >= |listed|
            && (r.totalPages > 0 ==> (r.totalPages - 1) * PageSize < |listed|)
            && r.currentPage == page
  {
    var listed := Listing(products, actor, searchName, sortOrder);
    var start := Max(PageOffset(page), 0);
    assert Skip(listed, PageOffset(page)) == Skip(listed, start);
    SkipTakeSlice(listed, start, PageSize);
  }

  /**
   Page 429496731 wraps its offset to -2147483646, so Skip drops nothing and
   the caller is shown the first page again.
   */
  lemma WrappedPageShowsFirstPage(products: seq<Product>, actor: Actor, searchName: Option<string>, sortOrder: Option<string>)
    ensures PageOffset(LastExactPage + 1) == -2147483646
    ensures Index(products, actor, searchName, sortOrder, LastExactPage + 1).items
         == Index(products, actor, searchName, sortOrder, 1).items
  {
    var listed := Listing(products, actor, searchName, sortOrder);
    assert PageOffset(LastExactPage + 1) == -2147483646;
    assert Skip(listed, PageOffset(LastExactPage + 1)) == listed == Skip(listed, PageOffset(1));
  }

  /** The answer of Details. */
  datatype Detail = DetailNotFound | DetailForbidden | DetailView(product: Product)

  function Details(products: seq<Product>, grants: seq<ProductPermission>, actor: Actor, id: Option<int>): (r: Detail)
    ensures r == DetailNotFound <==> id.None? || forall k :: 0 <= k < |products| ==> products[k].id != id.value
    ensures r.DetailView? ==>
      && r.product in products && Some(r.product.id) == id && CanViewProduct(actor, r.product, grants)
    ensures r == DetailForbidden ==>
      exists k :: 0 <= k < |products| && Some(products[k].id) == id && !CanViewProduct(actor, products[k], grants)
  {
    if id.None? then DetailNotFound
    else
      match FirstIndex(products, (p: Product) => p.id == id.value)
      case None => DetailNotFound
      case Some(k) =>
        if !CanViewProduct(actor, products[k], grants) then DetailForbidden
        else DetailView(products[k])
  }

  predicate UniqueIds(products: seq<Product>) {
    forall i, j :: 0 <= i < j < |products| ==> products[i].id != products[j].id
  }

  /**
   Details shows a product exactly when the listing's visibility filter keeps
   it, and forbids it otherwise, when every product's loaded permissions are
   its rows of the grants table.
   */
  lemma DetailsMatchesListing(products: seq<Product>, grants: seq<ProductPermission>, actor: Actor, k: nat)
    requires UniqueIds(products)
    requires k < |products|
    requires forall i :: 0 <= i < |products| ==> Linked(products[i], grants)
    ensures var p := products[k];
            && (Details(products, grants, actor, Some(p.id)) == DetailView(p) <==> p in VisibleProducts(products, actor))
            && (Details(products, grants, actor, Some(p.id)) == DetailForbidden <==> p !in VisibleProducts(products, actor))
  {
  }

  /** Details on an id that no product has, in an empty store, is "not found". */
  lemma DetailsMissingIdExample(actor: Actor)
    ensures Details([], [], actor, Some(999)) == DetailNotFound
    ensures Details([], [], actor, None) == DetailNotFound
  {
  }

  /**
   A caller with no user id, outside the Admin role, is shown a product that
   records no creator: the creator test compares two nulls.
   */
  lemma IndexAnonymousExample(p: Product)
    requires p.createdByUserId.None?
    ensures Index([p], Actor(None, false), None, None, 1).items == [p]
    ensures Index([p], Actor(None, false), None, None, 1).totalPages == 1
  {
  }
}
