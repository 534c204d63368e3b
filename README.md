# Offer Finder, modelled in Dafny

Offer Finder is two browser-driven scrapers:

- `offer.py` searches Amazon and Walmart for a query. From each result element it extracts a title, a current price, an original (strike-through) price, a discount percentage and a link. It sorts each store's records by discount, largest first, and writes one CSV comparison table.
- `offer2.py` searches Amazon's product search page, with a deals filter in the query, for a fixed list of terms. It retries a page load that fails, builds the current price from the whole and fraction parts, and keeps only real markdowns. It then filters on a 10% minimum discount, keeps one deal per url, and writes a five-column table.

This project models the data pipeline under the browser calls:

- price-text cleaning and conversion;
- the discount arithmetic;
- per-item extraction with its skip-on-exception behaviour;
- the stable sort;
- the retry loop;
- the discount filter;
- the url deduplication;
- the table projections.

The browser is replaced by plain values:

- a page is either a load failure or a sequence of item records;
- an item record holds the optional strings the script would read from the element;
- a retry sequence is a function from the attempt number to that attempt's outcome.

Modules, one file each:

- `wrappers.dfy`: `Wrappers`, the `Option` type.
- `price_text.dfy`: `PriceText`. Python's `str.strip()`, `str.replace(c, '')` and `float()` restricted to decimal literals. It also holds a US-dollar formatter used to state the round trip.
- `discount.dfy`: `Discount`. The percentage formula, and `round(x, 2)` with ties to even.
- `seq_util.dfy`: `SeqUtil`, the "append what worked, skip what raised" loop shape.
- `table.dfy`: `Table`, the table cells.
- `offer_records.dfy`, `offer_ranking.dfy`, `offer_search.dfy`, `offer_report.dfy`: `OfferRecords`, `OfferRanking`, `OfferSearch`, `OfferReport`. These cover `offer.py`.
- `offer2_deals.dfy`, `offer2_search.dfy`, `offer2_results.dfy`: `DealExtraction`, `DealSearch`, `DealResults`. These cover `offer2.py`.

Two behaviours of the code that a reader may not expect:

- **Deduplication.** `offer2.py:141` builds a dict keyed by url, so it keeps the *last* record for each url, not the one with the highest discount, at the position where the url first appeared. `DealResults.UniqueByUrlFacts` proves that behaviour. `DealResults.UniqueByUrlExample` shows that a 10% deal listed after a 25% deal with the same url replaces it.
- **Walmart records.** As written, `offer.py:103` reads a name that is never bound, so no Walmart record is ever produced (see Findings).
- **Two trims.** `offer.py:50` strips with `str.strip()`, which removes every `str.isspace()` character. `offer2.py:69` leaves the trimming to `float()`, which removes the same characters except the separators U+001C to U+001F, so it rejects a price text that ends in one of them. `PriceText.FloatKeepsUnitSeparator` shows the difference.

## Model

| member | source | states |
|---|---|---|
| PriceText.Strip | offer.py:50 | the stripped text neither starts nor ends with a Python whitespace character |
| PriceText.TrimStartDropsSpaces | offer.py:50 | everything stripped from the front is whitespace |
| PriceText.TrimEndDropsSpaces | offer.py:50 | everything stripped from the back is whitespace |
| PriceText.StripSubset | offer.py:50 | stripping adds no character |
| PriceText.Without | offer.py:50 | `replace(c, '')` leaves no `c` and never lengthens the text |
| PriceText.WithoutSubset | offer.py:50 | removing a character adds no other character |
| PriceText.Unformat | offer2.py:69 | after both replacements the text holds no `$` and no `,` |
| PriceText.Clean | offer.py:50 | the cleaned price text has no `$`, no `,` and no surrounding whitespace |
| PriceText.ParseUnsigned | offer.py:50 | an unsigned decimal literal converts to a non-negative number |
| PriceText.ParseSigned | offer.py:50 | a literal with an optional sign converts only if it holds a digit; without '-' its value is non-negative; a string of digits converts to the number it denotes |
| PriceText.ParseFloat | offer.py:50 | `float()` accepts a text only if it holds a digit, so a text with none makes the item skip; a text without '-' never converts to a negative price; a string of digits converts to the number it denotes |
| PriceText.StripFloatSpace | offer2.py:69 | the trim inside `float()` keeps every digit, adds no minus sign and leaves a string of digits whole |
| PriceText.FloatKeepsUnitSeparator | offer2.py:69 | `str.strip()` removes a trailing U+001F but `float()` does not: "5\x1f" strips to "5" yet does not convert |
| PriceText.ParseUnformat | offer2.py:69 | a list price text that converts after removing `$` and `,` holds a digit, and without '-' gives a non-negative price |
| PriceText.UnformatFormatUsd | offer2.py:69 | removing `$` and `,` from a displayed dollar amount leaves its dollars, the point and its cents |
| PriceText.ParseUnformatFormatUsd | offer2.py:69 | removing `$` and `,` from any displayed dollar amount and converting gives back its value |
| PriceText.ParseCleanFormatUsd | offer.py:50 | cleaning and converting any displayed dollar amount such as `$12,345.67` gives back its value |
| PriceText.ParseThousandsExample | offer.py:50 | `"$1,299.00"` gives 1299.0 |
| PriceText.ParseDecimalLiteral | offer2.py:67 | digits, a point and digits convert to the literal's value |
| PriceText.PriceFromParts | offer2.py:67 | whole and fraction digits give the value of `whole.fraction`; with no fraction element the whole number; a whole part with a thousands separator never converts |
| PriceText.SeparatorNeverParses | offer2.py:67 | a whole part holding ',' makes `float()` raise, whatever the fraction |
| PriceText.PriceFromPartsExample | offer2.py:67 | whole "19" and fraction "99" give 19.99 |
| PriceText.PriceFromPartsDefaultExample | offer2.py:67 | whole "19" and no fraction element give 19.0 |
| Discount.PercentOff | offer.py:58 | the discount d satisfies original * d == 100 * (original - current); it is 0 iff the prices are equal; for a positive original price it is positive iff current < original |
| Discount.PercentOffRecoversCurrent | offer.py:58 | the current price is recovered from the original price and the discount |
| Discount.PercentOffBounds | offer.py:57-58 | for 0 <= current < original the discount lies in (0, 100], and it is 100 exactly for a free item |
| Discount.PercentOffMonotone | offer.py:58 | a higher original price never lowers the discount on the same current price |
| Discount.PercentOffNegative | offer.py:112 | an original price below the current price gives a negative discount |
| Discount.RoundHalfEven | offer2.py:76 | the result is within 1/2 of the input, and ties go to the even integer |
| Discount.Round2 | offer2.py:76 | `round(x, 2)` is a whole number of hundredths within 0.005 of x, and a tie goes to the even hundredth |
| Discount.Round2Bounds | offer2.py:76 | rounding keeps a percentage inside [0, 100] |
| Discount.Round2Exact | offer2.py:76 | a value that already has two decimals is unchanged |
| SeqUtil.FilterMap | offer.py:40-72 | the loop's result has no more records than there are items; its contents are stated by the three lemmas below |
| SeqUtil.FilterMapLength | offer.py:40-72 | the loop appends exactly one record per item that does not raise |
| SeqUtil.FilterMapMembers | offer.py:40-72 | a record is in the output iff some item yields it |
| SeqUtil.FilterMapAllFail | offer.py:40-72 | items that all raise leave the list empty |
| SeqUtil.FilterMapStep | offer.py:63-72 | one loop iteration appends the item's record or nothing |
| SeqUtil.CollectEach | offer.py:40-72 | the append-or-skip item loop (also offer.py:94-127 and offer2.py:54-88) returns exactly the records of the items whose body does not raise, in page order |
| OfferRecords.AmazonMarkdown | offer.py:51-59 | original and discount start as (current, 0) and stay so when there is no strike-through price or it does not convert; a nonzero discount needs original > current and is then the percentage |
| OfferRecords.AmazonProduct | offer.py:41-72 | a record exists iff the element has a title, a link and a first price that converts; its fields are that title, that price, the link's href, and the markdown |
| OfferRecords.AmazonDiscountInRange | offer.py:51-58 | for a non-negative price every Amazon discount is in [0, 100], and it is positive iff original > price |
| OfferRecords.AmazonUnsignedPrice | offer.py:50 | a price text without '-' gives a non-negative price |
| OfferRecords.WalmartMarkdown | offer.py:104-113 | original and discount stay (current, 0) without a convertible strike-through price; otherwise original is that price and the discount is the unguarded percentage (0 when original is 0) |
| OfferRecords.WalmartProduct | offer.py:95-127 | an unbound `price_text` skips every item; with the element text, a record exists iff title, price and href are present, the price converts and is nonzero, and title and href are non-empty |
| OfferRecords.WalmartDiscountUnguarded | offer.py:110-112 | with a convertible nonzero strike-through price the discount is the plain percentage, negative when that price is below the current price |
| OfferRanking.InsertByDiscount | offer.py:74 | inserting into a list sorted by discount keeps it sorted and adds exactly that record |
| OfferRanking.ByDiscountDesc | offer.py:74 | the result is sorted by discount, largest first, and is a permutation of the input |
| OfferRanking.ByDiscountDescStable | offer.py:74 | records with equal discounts keep their discovery order |
| OfferRanking.InsertKeepsGroups | offer.py:74 | an inserted record goes in front of its equal-discount group |
| OfferRanking.SortedGroupsUnique | offer.py:74 | two sorted lists with the same equal-discount groups are equal |
| OfferRanking.ByDiscountDescUnique | offer.py:74 | any sorted list that keeps every equal-discount group of the input in order is the sorted result |
| OfferRanking.ByDiscountDescFirstIsBest | offer.py:74 | the first record has the largest discount of all |
| OfferSearch.SearchAmazon | offer.py:26-78 | the item loop followed by the sort returns the sorted records of the usable elements, or [] when the page fails |
| OfferSearch.SearchWalmart | offer.py:80-133 | the same for Walmart, for either meaning of `price_text` |
| OfferSearch.AmazonResultsFacts | offer.py:40-74 | at most one record per element; a record is returned iff some element yields it; equal discounts stay in page order |
| OfferSearch.WalmartResultsFacts | offer.py:94-129 | the same for Walmart |
| OfferSearch.WalmartAsWrittenFindsNothing | offer.py:103 | as written, `search_walmart` returns [] for every page |
| OfferSearch.WalmartIntendedFindsUsable | offer.py:100-129 | with `price_text` bound to the price text, every usable Walmart element appears in the result |
| OfferReport.ProductRow | offer.py:144-151 | a data row holds the store and every field of the record, and reads back to them |
| OfferReport.StoreRows | offer.py:143-161 | one row per record of a store, in list order |
| OfferReport.CsvRows | offer.py:141-161 | 1 + \|a\| + \|w\| rows: the header, every Amazon record labelled Amazon, then every Walmart record labelled Walmart |
| OfferReport.SaveToCsv | offer.py:135-163 | the two write loops produce exactly that table |
| OfferReport.CompareStores | offer.py:171-202 | a table is saved iff at least one search found something |
| OfferReport.ComparisonAsWritten | offer.py:198-202 | as written, a table is saved iff Amazon found something, and all of its data rows are Amazon rows |
| DealExtraction.CurrentPrice | offer2.py:67 | digit parts give `whole.fraction` from the first elements, the whole number when there is no fraction element, and no price when the whole part holds ',' |
| DealExtraction.ListPrice | offer2.py:68-69 | a list price that converts holds a digit, and without '-' it is non-negative |
| DealExtraction.ListPriceOfDisplayed | offer2.py:68-69 | a list price displayed as a dollar amount such as `$1,299.00` gives its value |
| DealExtraction.ExtractDeal | offer2.py:55-88 | a deal exists iff the element is visible, has a title, a whole price and a list price that convert, a list price above the current price (and not 0), and a link; the deal's original price exceeds its current price and its discount is the rounded percentage |
| DealExtraction.DealDiscountInRange | offer2.py:75-76 | for a non-negative current price the stored discount is in [0, 100] and within 0.005 of the exact percentage |
| DealExtraction.DealSkipsSeparatedWhole | offer2.py:66-67 | an element whose whole price shows a thousands separator is never a deal |
| DealSearch.FirstItems | offer2.py:54 | `items[:max_items]` is a prefix of length min(max_items, \|items\|), or all but the last -max_items for a negative bound |
| DealSearch.SearchAmazonProducts | offer2.py:26-99 | the retry loop returns the deals of the first attempt that loaded, or [] when none did; it makes exactly the attempts counted by `AttemptsFrom` |
| DealSearch.AttemptsBounded | offer2.py:30-98 | at most max_retries attempts are made; every attempt but the last failed; a successful attempt is the last one |
| DealSearch.FirstSuccessIsFirst | offer2.py:30-90 | the result comes from the first attempt that loads |
| DealSearch.AllFailedFindsNothing | offer2.py:92-99 | when every attempt fails, nothing is raised and the empty list is returned |
| DealSearch.DealsFoundFacts | offer2.py:54-85 | a non-negative max_items caps the number of deals; every deal returned has original price > current price |
| DealResults.FilterDiscounted | offer2.py:101-104 | the kept deals are exactly those of the input with discount >= min_discount |
| DealResults.FilterDiscountedAppend | offer2.py:102 | filtering keeps the relative order: filtering a concatenation concatenates the filtered parts |
| DealResults.FilterDiscountedKeepsQualifying | offer2.py:102 | a list whose deals all qualify is kept whole |
| DealResults.FilterDiscountedIdempotent | offer2.py:102 | filtering twice is filtering once |
| DealResults.CollectDiscounted | offer2.py:127-138 | extending with each term's filtered deals gives the filter of all deals found, in order |
| DealResults.Store | offer2.py:141 | `d[url] = p` maps the url to p and leaves every other key's value alone; existing keys keep their order; the url is appended exactly when it is new; a well-formed dict stays well-formed |
| DealResults.ByUrl | offer2.py:141 | the dict is well-formed, has one key per url that occurs and no more keys than deals, and each value is a deal of the input carrying its key's url |
| DealResults.ByUrlKeepsLast | offer2.py:141 | each url maps to the last deal with that url |
| DealResults.ByUrlFirstSeenOrder | offer2.py:141 | the keys are ordered by the first appearance of each url |
| DealResults.ByUrlKeysGrow | offer2.py:141 | storing one more deal keeps the existing keys in place and appends its url only when the url is new |
| DealResults.UniqueByUrl | offer2.py:141 | `.values()` has no more deals than the input, each a deal of the input, no two with the same url |
| DealResults.UniqueByUrlFacts | offer2.py:141 | one deal per distinct url, every url kept, each the last deal with its url, ordered by first appearance |
| DealResults.UniqueByUrlLast | offer2.py:141 | the i-th deal kept carries the i-th key and is the last deal of the input with that url |
| DealResults.UniqueByUrlOrder | offer2.py:141 | the deals kept are ordered by the first appearance of their urls |
| DealResults.UniqueByUrlCovers | offer2.py:141 | the deals kept carry exactly the urls of the input |
| DealResults.UniqueByUrlExample | offer2.py:141 | of two deals with the same url, the later one is kept |
| DealResults.DealRow | offer2.py:109-110 | a deal becomes exactly five cells (title, current price, original price, discount, url) that read back to the deal |
| DealResults.DealTable | offer2.py:106-112 | a table is written iff the list is non-empty: the header plus one row per deal, in order |
| DealResults.RunDealSearch | offer2.py:127-142 | gather with the 10% threshold, deduplicate and save |
| DealResults.DealsReportFacts | offer2.py:140-142 | every saved row is a deal found for some term whose discount is at least the minimum |
| DealResults.DealTableRows | offer2.py:106-112 | the data rows read back to the deals in order, so distinct deal urls give distinct row urls and every deal url is on some row |
| DealResults.DealsReportOnePerUrl | offer2.py:140-142 | a saved table has one row per distinct url: no two data rows share a url, and every qualifying deal's url is on a row |

## Left out

- The browser is not modelled. This covers browser setup and options (`setup_driver`), navigation, scrolling, `WebDriverWait` polling, `find_element(s)`, `get_attribute`, `.text` and `innerHTML`. Pages, elements and attempt outcomes are inputs.
- Sleeps and random jitter are not modelled, since they change only timing. The search URL built from the query is also not modelled.
- The console output is not modelled: `print` logging, the "Top 5" listings in `offer.py`'s main block, and the `input()` prompt.
- File output is not modelled: the CSV file, the pandas writer and the date-stamped file names. The tables are modelled as sequences of cells.
- Formatting in the cells is not modelled. `Money` and `Percent` cells stand for the `.2f` and `.1f` formatting; pandas writes floats with their repr.
- Prices are exact reals, not IEEE doubles: no NaN, no infinity, no binary rounding.
- `Discount.Round2` rounds the exact real half to even. It ignores the representation error of Python's `round` on doubles.
- `PriceText.ParseFloat` accepts only plain decimal literals with an optional sign. It returns None for what else Python's `float()` accepts: exponents, `inf`, `nan`, underscores and non-ASCII digits.
- The `search_categories` loop in `offer2.py`'s main block is not modelled beyond its result. The results of the searches are an input: one deal list per term, in loop order.
- The exception handler around `offer2.py`'s main block is not modelled, and neither is `driver.quit()`.

## Findings

| source | as written | input that shows it | evidently intended | confidence | as-written member | corrected member |
|---|---|---|---|---|---|---|
| offer.py:103 | the current Walmart price is read from `price_text`, a name bound nowhere, so every item raises NameError and is skipped | any loaded Walmart page, e.g. one element with title "TV", price text "$99.00" and a link | `price_text = price_element.text` before the conversion | high; not executed | OfferSearch.WalmartAsWrittenFindsNothing | OfferSearch.WalmartIntendedFindsUsable |
