/** offer.py:26-133: search_amazon and search_walmart. Each loads one search
    page, turns every result element into a record or skips it, and returns
    the records sorted by discount; a failure before the loop returns the
    empty list. */
module OfferSearch {
  import opened Wrappers
  import opened SeqUtil
  import opened OfferRecords
  import opened OfferRanking

  /** What search_amazon returns for a page. */
  function AmazonResults(page: Page<AmazonItem>): seq<Product> {
    match page
    case LoadFailed => []
    case Loaded(items) => ByDiscountDesc(FilterMap(items, AmazonProduct))
  }

  /** The per-item step of search_walmart, given what `price_text`
      denotes. */
  function WalmartStep(binding: PriceTextBinding): WalmartItem -> Option<Product> {
    (x: WalmartItem) => WalmartProduct(x, binding)
  }

  /** What search_walmart returns for a page. */
  function WalmartResults(page: Page<WalmartItem>, binding: PriceTextBinding): seq<Product> {
    match page
    case LoadFailed => []
    case Loaded(items) => ByDiscountDesc(FilterMap(items, WalmartStep(binding)))
  }

  /** offer.py:26-78: the item loop appends one record per usable element,
      then the records are sorted. */
  method SearchAmazon(page: Page<AmazonItem>) returns (products: seq<Product>)
    ensures products == AmazonResults(page)
    ensures SortedByDiscount(products)
  {
    if page.LoadFailed? {
      return [];
    }
    var found := CollectEach(page.items, AmazonProduct);
    products := ByDiscountDesc(found);
  }

  /** offer.py:80-133, with `price_text` denoting `binding`. */
  method SearchWalmart(page: Page<WalmartItem>, binding: PriceTextBinding) returns (products: seq<Product>)
    ensures products == WalmartResults(page, binding)
    ensures SortedByDiscount(products)
  {
    if page.LoadFailed? {
      return [];
    }
    var found := CollectEach(page.items, WalmartStep(binding));
    products := ByDiscountDesc(found);
  }

  /** The Amazon results are exactly the records of the usable elements:
      every record comes from an element of the page, every usable element's
      record is there, at most one per element, and records with equal
      discounts keep the page order. */
  lemma AmazonResultsFacts(items: seq<AmazonItem>, p: Product, d: real)
    ensures var r := AmazonResults(Loaded(items));
      && |r| <= |items|
      && (p in r <==> exists i :: 0 <= i < |items| && AmazonProduct(items[i]) == Some(p))
      && WithDiscount(r, d) == WithDiscount(FilterMap(items, AmazonProduct), d)
  {
    var found := FilterMap(items, AmazonProduct);
    FilterMapMembers(items, AmazonProduct, p);
    assert p in found <==> p in multiset(found);
    ByDiscountDescStable(found, d);
  }

  /** The same for Walmart, for either meaning of `price_text`. */
  lemma WalmartResultsFacts(items: seq<WalmartItem>, binding: PriceTextBinding, p: Product, d: real)
    ensures var r := WalmartResults(Loaded(items), binding);
      && |r| <= |items|
      && (p in r <==> exists i :: 0 <= i < |items| && WalmartProduct(items[i], binding) == Some(p))
      && WithDiscount(r, d) == WithDiscount(FilterMap(items, WalmartStep(binding)), d)
  {
    var f := WalmartStep(binding);
    var found := FilterMap(items, f);
    FilterMapMembers(items, f, p);
    assert p in found <==> p in multiset(found);
    ByDiscountDescStable(found, d);
  }

  /** As written, search_walmart finds nothing on any page: every element
      raises NameError at offer.py:103. */
  lemma WalmartAsWrittenFindsNothing(page: Page<WalmartItem>)
    ensures WalmartResults(page, Unbound) == []
  {
    if page.Loaded? {
      FilterMapAllFail(page.items, WalmartStep(Unbound));
    }
  }

  /** With the evidently intended binding, every Walmart element with a
      title, a nonzero price and a link is listed. */
  lemma WalmartIntendedFindsUsable(items: seq<WalmartItem>, i: nat)
    requires i < |items| && WalmartProduct(items[i], ElementText).Some?
    ensures WalmartProduct(items[i], ElementText).value in WalmartResults(Loaded(items), ElementText)
  {
    WalmartResultsFacts(items, ElementText, WalmartProduct(items[i], ElementText).value, 0.0);
  }
}
