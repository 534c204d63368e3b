/** offer2.py:55-88: what one search-result element of the deals scraper
    turns into. As in offer.py, every exception inside the per-item try
    (a wait that times out, a missing element, a float() that raises, a
    division by zero) skips the item. */
module DealExtraction {
  import opened Wrappers
  import opened PriceText
  import opened Discount
  import opened OfferRecords

  /** A result element as the deals scraper reads it (offer2.py:57-64):
      whether it became visible within the wait, the text of "h2 span"
      (None: find_element raised), the texts of every whole-price and
      fraction-price match, the innerHTML of every list-price match, and the
      "h2 a" element (None: find_element raised). */
  datatype DealItem = DealItem(
    visible: bool,
    title: Option<string>,
    priceWhole: seq<string>,
    priceFraction: seq<string>,
    listPriceHtml: seq<string>,
    link: Option<Anchor>)

  /** The dict appended at offer2.py:79-85. */
  datatype Deal = Deal(
    title: string,
    currentPrice: real,
    originalPrice: real,
    url: Option<string>,
    discount: real)

  /** offer2.py:67: the current price from the first whole part and the
      first fraction part, ".00" when there is no fraction element. */
  function CurrentPrice(item: DealItem): (r: Option<real>)
    requires item.priceWhole != []
    ensures var w := item.priceWhole[0];
      w != [] && AllDigits(w) && item.priceFraction != [] && AllDigits(item.priceFraction[0]) ==>
      r == Some(Decimal(w, item.priceFraction[0]))
    ensures var w := item.priceWhole[0];
      w != [] && AllDigits(w) && item.priceFraction == [] ==> r == Some(DigitsValue(w) as real)
    ensures ',' in item.priceWhole[0] ==> r == None
  {
    PriceFromParts(item.priceWhole[0], if item.priceFraction != [] then Some(item.priceFraction[0]) else None)
  }

  /** offer2.py:68-69: the list price; "$" and "," are removed and float()
      itself ignores surrounding whitespace. */
  function ListPrice(item: DealItem): (r: Option<real>)
    requires item.listPriceHtml != []
    ensures var h := item.listPriceHtml[0];
      r.Some? ==> exists k :: 0 <= k < |h| && IsDigit(h[k])
    ensures r.Some? && '-' !in item.listPriceHtml[0] ==> r.value >= 0.0
  {
    ParseUnformat(item.listPriceHtml[0]);
    ParseFloat(Unformat(item.listPriceHtml[0]))
  }

  /** A list price displayed as the retailer shows prices ("$1,299.00")
      gives its value. */
  lemma ListPriceOfDisplayed(item: DealItem, cents: nat)
    requires item.listPriceHtml != [] && item.listPriceHtml[0] == FormatUsd(cents)
    ensures ListPrice(item) == Some(cents as real / 100.0)
  {
    ParseUnformatFormatUsd(cents);
  }

  /** offer2.py:55-88: the deal for one element, or None when the element is
      skipped or is not a markdown. */
  function ExtractDeal(item: DealItem): (r: Option<Deal>)
    ensures r.Some? <==>
      && item.visible && item.title.Some? && item.priceWhole != [] && item.listPriceHtml != []
      && CurrentPrice(item).Some? && ListPrice(item).Some?
      && ListPrice(item).value > CurrentPrice(item).value
      && ListPrice(item).value != 0.0
      && item.link.Some?
    ensures r.Some? ==>
      && r.value.originalPrice > r.value.currentPrice
      && r.value.currentPrice == CurrentPrice(item).value
      && r.value.originalPrice == ListPrice(item).value
      && r.value.discount == Round2(PercentOff(r.value.currentPrice, r.value.originalPrice))
      && r.value.title == item.title.value
      && r.value.url == item.link.value.href
  {
    if !item.visible || item.title.None? then None
    else if item.priceWhole == [] || item.listPriceHtml == [] then None
    else match CurrentPrice(item)
      case None => None
      case Some(current) =>
        match ListPrice(item)
        case None => None
        case Some(listPrice) =>
          if listPrice <= current then None
          // a list price of 0 above the current price: ZeroDivisionError
          else if listPrice == 0.0 then None
          else if item.link.None? then None
          else
            var discount := Round2(PercentOff(current, listPrice));
            Some(Deal(item.title.value, current, listPrice, item.link.value.href, discount))
  }

  /** For a non-negative current price the stored discount lies in [0, 100]
      and is within 0.005 of the exact percentage. */
  lemma DealDiscountInRange(item: DealItem)
    requires ExtractDeal(item).Some? && ExtractDeal(item).value.currentPrice >= 0.0
    ensures var d := ExtractDeal(item).value;
      && 0.0 <= d.discount <= 100.0
      && -0.005 <= d.discount - PercentOff(d.currentPrice, d.originalPrice) <= 0.005
  {
    var d := ExtractDeal(item).value;
    PercentOffBounds(d.currentPrice, d.originalPrice);
    Round2Bounds(PercentOff(d.currentPrice, d.originalPrice));
  }

  /** An element whose whole part shows a thousands separator ("1,299") is
      never a deal: the whole part is not cleaned before float(). */
  lemma DealSkipsSeparatedWhole(item: DealItem)
    requires item.priceWhole != [] && ',' in item.priceWhole[0]
    ensures ExtractDeal(item).None?
  {
  }
}
