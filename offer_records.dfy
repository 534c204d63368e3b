/** offer.py, per item: what one Amazon or Walmart result element turns
    into. A browser element is modelled as the optional strings the script
    reads from it; a find_element with no match, a WebDriverWait that times
    out and a float() that raises all make the item's try block fail, which
    the loop's except clause turns into a skipped item (None). */
module OfferRecords {
  import opened Wrappers
  import opened PriceText
  import opened Discount

  /** What a search page gives the loop: the item elements, or the failure of
      driver.get / WebDriverWait / find_elements before the loop. */
  datatype Page<T> = LoadFailed | Loaded(items: seq<T>)

  /** An `<a>` element; get_attribute("href") may be None. */
  datatype Anchor = Anchor(href: Option<string>)

  /** An Amazon result element (offer.py:43-46). `title` is the text of
      "h2 a span" and `link` the "h2 a" element (None when absent: the
      find_element raises); `prices` and `originalPrices` are the innerHTML
      of every ".a-price .a-offscreen" and ".a-text-price .a-offscreen" match
      (find_elements: possibly none). */
  datatype AmazonItem = AmazonItem(
    title: Option<string>,
    prices: seq<string>,
    originalPrices: seq<string>,
    link: Option<Anchor>)

  /** The dict appended to `products` by both search functions. */
  datatype Product = Product(
    title: string,
    price: real,
    originalPrice: real,
    discount: real,
    link: Option<string>)

  /** offer.py:51-59: starting from (current, 0.0), the original price and
      the discount after the strike-through price is considered. */
  function AmazonMarkdown(current: real, originalPrices: seq<string>): (r: (real, real))
    ensures r.1 != 0.0 ==> r.0 > current && r.0 != 0.0 && r.1 == PercentOff(current, r.0)
    ensures r.0 > current && r.0 != 0.0 ==> r.1 == PercentOff(current, r.0)
    ensures originalPrices == [] || ParseFloat(Clean(originalPrices[0])).None? ==> r == (current, 0.0)
    ensures originalPrices != [] && ParseFloat(Clean(originalPrices[0])).Some? ==>
      r.0 == ParseFloat(Clean(originalPrices[0])).value
  {
    if originalPrices == [] then (current, 0.0)
    else match ParseFloat(Clean(originalPrices[0]))
      case None => (current, 0.0)  // float() raised: both stay unchanged
      case Some(original) =>
        if original > current && original != 0.0 then (original, PercentOff(current, original))
        // not greater; or 0.0 > current, where the division raises after
        // original_price was assigned
        else (original, 0.0)
  }

  /** offer.py:41-72: the record for one Amazon element, or None when the
      element is skipped. */
  function AmazonProduct(item: AmazonItem): (r: Option<Product>)
    ensures r.Some? <==>
      item.title.Some? && item.link.Some? && item.prices != [] && ParseFloat(Clean(item.prices[0])).Some?
    ensures r.Some? ==>
      && r.value.price == ParseFloat(Clean(item.prices[0])).value
      && r.value.title == item.title.value
      && r.value.link == item.link.value.href
      && (r.value.originalPrice, r.value.discount) == AmazonMarkdown(r.value.price, item.originalPrices)
  {
    if item.title.None? || item.link.None? then None
    else if item.prices == [] then None
    else match ParseFloat(Clean(item.prices[0]))
      case None => None
      case Some(current) =>
        var (original, discount) := AmazonMarkdown(current, item.originalPrices);
        Some(Product(item.title.value, current, original, discount, item.link.value.href))
  }

  /** For a non-negative price every Amazon discount lies in [0, 100], and it
      is positive exactly when the original price is above the current one. */
  lemma AmazonDiscountInRange(item: AmazonItem)
    requires AmazonProduct(item).Some? && AmazonProduct(item).value.price >= 0.0
    ensures var p := AmazonProduct(item).value;
      0.0 <= p.discount <= 100.0 && (p.discount > 0.0 <==> p.originalPrice > p.price)
  {
    var p := AmazonProduct(item).value;
    if p.originalPrice > p.price {
      PercentOffBounds(p.price, p.originalPrice);
    }
  }

  /** A price text with no minus sign converts to a non-negative price, so
      the range above holds for every price the retailer displays. */
  lemma AmazonUnsignedPrice(item: AmazonItem)
    requires AmazonProduct(item).Some? && '-' !in item.prices[0]
    ensures AmazonProduct(item).value.price >= 0.0
  {
    var t := Unformat(item.prices[0]);
    assert '-' !in t by { WithoutSubset(item.prices[0], '$'); WithoutSubset(Without(item.prices[0], '$'), ','); }
    assert '-' !in Clean(item.prices[0]) by {
      if '-' in Strip(t, StrSpace) { StripSubset(t, StrSpace, '-'); }
    }
  }

  /** The Walmart title element, waited for with WebDriverWait(item, 5). */
  datatype TitleElement = TitleElement(text: string, href: Option<string>)

  /** A Walmart result element (offer.py:97-109): the title element (None:
      the wait timed out), the text of the product-price element and of the
      strike-through element (None: find_element raised). */
  datatype WalmartItem = WalmartItem(
    title: Option<TitleElement>,
    priceText: Option<string>,
    strikethroughText: Option<string>)

  /** What the name `price_text` read at offer.py:103 denotes. As written it
      is bound nowhere in the module (Unbound: NameError); the evidently
      intended value is the price element's text (ElementText). */
  datatype PriceTextBinding = Unbound | ElementText

  /** offer.py:104-113: from (current, 0.0), the original price and discount
      after the strike-through price; there is no `original > current`
      guard. */
  function WalmartMarkdown(current: real, strikethrough: Option<string>): (r: (real, real))
    ensures strikethrough.None? || ParseFloat(Clean(strikethrough.value)).None? ==> r == (current, 0.0)
    ensures strikethrough.Some? && ParseFloat(Clean(strikethrough.value)).Some? ==>
      && r.0 == ParseFloat(Clean(strikethrough.value)).value
      && (r.0 != 0.0 ==> r.1 == PercentOff(current, r.0))
      && (r.0 == 0.0 ==> r.1 == 0.0)
  {
    if strikethrough.None? then (current, 0.0)
    else match ParseFloat(Clean(strikethrough.value))
      case None => (current, 0.0)
      case Some(original) =>
        if original == 0.0 then (original, 0.0)  // ZeroDivisionError after the assignment
        else (original, PercentOff(current, original))
  }

  /** offer.py:95-124: the record for one Walmart element, or None when the
      element is skipped (an exception, or the falsy check of line 117). */
  function WalmartProduct(item: WalmartItem, binding: PriceTextBinding): (r: Option<Product>)
    ensures binding.Unbound? ==> r.None?
    ensures binding.ElementText? ==> (r.Some? <==>
      && item.title.Some? && item.priceText.Some?
      && ParseFloat(Clean(item.priceText.value)).Some?
      && ParseFloat(Clean(item.priceText.value)).value != 0.0
      && item.title.value.text != []
      && item.title.value.href.Some? && item.title.value.href.value != [])
    ensures r.Some? ==>
      && r.value.price == ParseFloat(Clean(item.priceText.value)).value
      && r.value.title == item.title.value.text
      && r.value.link == item.title.value.href
      && (r.value.originalPrice, r.value.discount) == WalmartMarkdown(r.value.price, item.strikethroughText)
  {
    if item.title.None? || item.priceText.None? then None
    else if binding.Unbound? then None
    else match ParseFloat(Clean(item.priceText.value))
      case None => None
      case Some(current) =>
        var (original, discount) := WalmartMarkdown(current, item.strikethroughText);
        var t := item.title.value;
        if t.text != [] && current != 0.0 && t.href.Some? && t.href.value != []
        then Some(Product(t.text, current, original, discount, t.href))
        else None
  }

  /** offer.py:110-112: whenever the strike-through text converts to a
      nonzero price the discount is the plain percentage, so it is negative
      when that price is below the current one. */
  lemma WalmartDiscountUnguarded(item: WalmartItem)
    requires WalmartProduct(item, ElementText).Some?
    requires item.strikethroughText.Some?
    requires ParseFloat(Clean(item.strikethroughText.value)).Some?
    ensures var p := WalmartProduct(item, ElementText).value;
      p.originalPrice == ParseFloat(Clean(item.strikethroughText.value)).value
      && (p.originalPrice != 0.0 ==> p.discount == PercentOff(p.price, p.originalPrice))
      && (0.0 < p.originalPrice < p.price ==> p.discount < 0.0)
  {
    var p := WalmartProduct(item, ElementText).value;
    assert (p.originalPrice, p.discount) == WalmartMarkdown(p.price, item.strikethroughText);
    if 0.0 < p.originalPrice < p.price {
      PercentOffNegative(p.price, p.originalPrice);
    }
  }
}
