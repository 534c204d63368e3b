/** offer2.py:101-142: what the deals scraper does with the deals it found:
    keep those with a large enough discount, gather them over all search
    terms, keep one deal per url, and project them onto the five columns of
    the CSV table. */
module DealResults {
  import opened Wrappers
  import opened Table
  import opened DealExtraction

  /** offer2.py:115. */
  const MinDiscountPercentage: real := 10.0

  /** offer2.py:101-104: the deals whose discount is at least minDiscount, in
      their original order. */
  function FilterDiscounted(products: seq<Deal>, minDiscount: real): (r: seq<Deal>)
    ensures |r| <= |products|
    ensures forall i :: 0 <= i < |r| ==> r[i].discount >= minDiscount
    ensures forall d :: d in r <==> d in products && d.discount >= minDiscount
  {
    if products == [] then []
    else
      var rest := FilterDiscounted(products[1..], minDiscount);
      assert forall d :: d in products <==> d == products[0] || d in products[1..];
      if products[0].discount >= minDiscount then [products[0]] + rest else rest
  }

  /** Filtering a concatenation filters each part: the deals kept keep their
      relative order. */
  lemma {:induction false} FilterDiscountedAppend(a: seq<Deal>, b: seq<Deal>, minDiscount: real)
    ensures FilterDiscounted(a + b, minDiscount) == FilterDiscounted(a, minDiscount) + FilterDiscounted(b, minDiscount)
  {
    if a == [] {
      assert a + b == b;
    } else {
      assert (a + b)[0] == a[0] && (a + b)[1..] == a[1..] + b;
      FilterDiscountedAppend(a[1..], b, minDiscount);
    }
  }

  /** A list whose deals all qualify is kept whole; in particular filtering
      twice is filtering once. */
  lemma {:induction false} FilterDiscountedKeepsQualifying(products: seq<Deal>, minDiscount: real)
    requires forall i :: 0 <= i < |products| ==> products[i].discount >= minDiscount
    ensures FilterDiscounted(products, minDiscount) == products
  {
    if products != [] {
      FilterDiscountedKeepsQualifying(products[1..], minDiscount);
    }
  }

  lemma FilterDiscountedIdempotent(products: seq<Deal>, minDiscount: real)
    ensures FilterDiscounted(FilterDiscounted(products, minDiscount), minDiscount)
         == FilterDiscounted(products, minDiscount)
  {
    FilterDiscountedKeepsQualifying(FilterDiscounted(products, minDiscount), minDiscount);
  }

  /** The search terms' results one after the other. */
  function Flatten(perTerm: seq<seq<Deal>>): (r: seq<Deal>) {
    if perTerm == [] then [] else Flatten(perTerm[..|perTerm| - 1]) + perTerm[|perTerm| - 1]
  }

  /** offer2.py:127-138: `all_products.extend(discounted)` for every search
      term; the result is the filter applied to all deals found, in order. */
  method CollectDiscounted(perTerm: seq<seq<Deal>>, minDiscount: real) returns (all: seq<Deal>)
    ensures all == FilterDiscounted(Flatten(perTerm), minDiscount)
  {
    all := [];
    for i := 0 to |perTerm|
      invariant all == FilterDiscounted(Flatten(perTerm[..i]), minDiscount)
    {
      var discounted := FilterDiscounted(perTerm[i], minDiscount);
      assert perTerm[..i + 1][..i] == perTerm[..i];
      FilterDiscountedAppend(Flatten(perTerm[..i]), perTerm[i], minDiscount);
      all := all + discounted;
    }
    assert perTerm[..|perTerm|] == perTerm;
  }

  /** The urls the deals carry. */
  function Urls(s: seq<Deal>): (r: set<Option<string>>)
    ensures forall i :: 0 <= i < |s| ==> s[i].url in r
  {
    if s == [] then {} else Urls(s[..|s| - 1]) + {s[|s| - 1].url}
  }

  /** Independent description of the kept value: the last deal of s with
      url u. */
  function LastWith(s: seq<Deal>, u: Option<string>): (r: Option<Deal>)
    ensures r.Some? ==> r.value in s && r.value.url == u
    ensures r.Some? <==> u in Urls(s)
  {
    if s == [] then None
    else if s[|s| - 1].url == u then Some(s[|s| - 1])
    else LastWith(s[..|s| - 1], u)
  }

  /** Independent description of the order: the position of the first deal
      of s with url u (|s| when there is none). */
  function FirstIndex(s: seq<Deal>, u: Option<string>): (r: nat)
    ensures r <= |s|
    ensures r < |s| ==> s[r].url == u
    ensures forall i :: 0 <= i < r ==> s[i].url != u
  {
    if s == [] then 0
    else
      var k := FirstIndex(s[..|s| - 1], u);
      if k < |s| - 1 then k else if s[|s| - 1].url == u then |s| - 1 else |s|
  }

  /** A Python dict from url to deal: the keys in insertion order and the
      key-value map. */
  datatype UrlDict = UrlDict(keys: seq<Option<string>>, values: map<Option<string>, Deal>)

  /** What a dict always satisfies: each key listed once, and the listed
      keys are the keys of the map. */
  ghost predicate WellFormed(d: UrlDict) {
    && (forall i, j :: 0 <= i < j < |d.keys| ==> d.keys[i] != d.keys[j])
    && (forall k :: k in d.keys <==> k in d.values)
  }

  /** `d[p['url']] = p`: a new key goes to the end, an existing key keeps its
      place and takes the new value. */
  function Store(d: UrlDict, p: Deal): (r: UrlDict)
    ensures p.url in r.values && r.values[p.url] == p
    ensures r.values.Keys == d.values.Keys + {p.url}
    ensures forall k :: k in d.values && k != p.url ==> r.values[k] == d.values[k]
    ensures |d.keys| <= |r.keys| && r.keys[..|d.keys|] == d.keys
    ensures |r.keys| == |d.keys| + 1 <==> p.url !in d.values
    ensures |r.keys| == |d.keys| + 1 ==> r.keys[|d.keys|] == p.url
    ensures |r.keys| <= |d.keys| + 1
    ensures WellFormed(d) ==> WellFormed(r)
  {
    if p.url in d.values then UrlDict(d.keys, d.values[p.url := p])
    else UrlDict(d.keys + [p.url], d.values[p.url := p])
  }

  /** offer2.py:141: `{p['url']: p for p in all_products}`. */
  function ByUrl(s: seq<Deal>): (d: UrlDict)
    ensures |d.keys| <= |s|
    ensures WellFormed(d)
    ensures d.values.Keys == Urls(s)
    ensures forall k :: k in d.values ==> d.values[k].url == k && d.values[k] in s
  {
    if s == [] then UrlDict([], map[])
    else Store(ByUrl(s[..|s| - 1]), s[|s| - 1])
  }

  /** Each url is mapped to the last deal with that url. */
  lemma {:induction false} ByUrlKeepsLast(s: seq<Deal>, k: Option<string>)
    requires k in ByUrl(s).values
    ensures Some(ByUrl(s).values[k]) == LastWith(s, k)
  {
    if s != [] && s[|s| - 1].url != k {
      ByUrlKeepsLast(s[..|s| - 1], k);
    }
  }

  /** The keys are ordered by the first appearance of each url. */
  lemma {:induction false} ByUrlFirstSeenOrder(s: seq<Deal>, i: nat, j: nat)
    requires i < j < |ByUrl(s).keys|
    ensures FirstIndex(s, ByUrl(s).keys[i]) < FirstIndex(s, ByUrl(s).keys[j])
  {
    var init := s[..|s| - 1];
    var old_keys := ByUrl(init).keys;
    var keys := ByUrl(s).keys;
    ByUrlKeysGrow(s);
    assert keys[i] == old_keys[i];
    FirstIndexKnown(s, old_keys[i]);
    if j < |old_keys| {
      assert keys[j] == old_keys[j];
      ByUrlFirstSeenOrder(init, i, j);
      FirstIndexKnown(s, old_keys[j]);
    } else {
      FirstIndexAbsent(init, keys[j]);
      assert FirstIndex(s, keys[j]) == |s| - 1;
    }
  }

  /** Appending a deal keeps the keys and their order, and adds its url at
      the end when it is new. */
  lemma ByUrlKeysGrow(s: seq<Deal>)
    requires s != []
    ensures var keys, old_keys := ByUrl(s).keys, ByUrl(s[..|s| - 1]).keys;
      && |old_keys| <= |keys| <= |old_keys| + 1
      && keys[..|old_keys|] == old_keys
      && (|keys| > |old_keys| ==> keys[|old_keys|] == s[|s| - 1].url && s[|s| - 1].url !in Urls(s[..|s| - 1]))
  {
    var d, last := ByUrl(s[..|s| - 1]), s[|s| - 1];
    assert ByUrl(s) == Store(d, last);
    if last.url !in d.values {
      assert ByUrl(s).keys == d.keys + [last.url];
    }
  }

  /** The first position of a url already in s does not move when a deal is
      appended. */
  lemma FirstIndexKnown(s: seq<Deal>, u: Option<string>)
    requires s != [] && u in ByUrl(s[..|s| - 1]).keys
    ensures FirstIndex(s, u) == FirstIndex(s[..|s| - 1], u) < |s| - 1
  {
    FirstIndexAbsent(s[..|s| - 1], u);
  }

  /** FirstIndex finds every url that s carries. */
  lemma {:induction false} FirstIndexAbsent(s: seq<Deal>, u: Option<string>)
    ensures FirstIndex(s, u) < |s| <==> u in Urls(s)
  {
    if s != [] {
      FirstIndexAbsent(s[..|s| - 1], u);
    }
  }

  /** `.values()` of the dict, in key order. */
  function UniqueByUrl(s: seq<Deal>): (r: seq<Deal>)
    ensures |r| <= |s|
    ensures forall i :: 0 <= i < |r| ==> r[i] in s
    ensures forall i, j :: 0 <= i < j < |r| ==> r[i].url != r[j].url
  {
    var d := ByUrl(s);
    var r := seq(|d.keys|, i requires 0 <= i < |d.keys| => d.values[d.keys[i]]);
    DictValues(d, s, r);
    r
  }

  /** The values of a well-formed dict read in key order carry distinct
      urls. */
  lemma DictValues(d: UrlDict, s: seq<Deal>, r: seq<Deal>)
    requires WellFormed(d)
    requires forall k :: k in d.values ==> d.values[k].url == k && d.values[k] in s
    requires |r| == |d.keys| && forall i :: 0 <= i < |r| ==> r[i] == d.values[d.keys[i]]
    ensures forall i :: 0 <= i < |r| ==> r[i] in s
    ensures forall i, j :: 0 <= i < j < |r| ==> r[i].url != r[j].url
  {
    forall i, j | 0 <= i < j < |r| ensures r[i].url != r[j].url {
      assert r[i].url == d.keys[i] && r[j].url == d.keys[j];
    }
  }

  /** The dedup keeps exactly one deal per distinct url: no two deals share
      a url, every url of s is present, each deal is the last one of s with
      its url, and the deals are ordered by the first appearance of their
      urls in s. */
  lemma UniqueByUrlFacts(s: seq<Deal>)
    ensures var r := UniqueByUrl(s);
      && (forall i, j :: 0 <= i < j < |r| ==> r[i].url != r[j].url)
      && Urls(r) == Urls(s)
      && (forall i :: 0 <= i < |r| ==> Some(r[i]) == LastWith(s, r[i].url))
      && (forall i, j :: 0 <= i < j < |r| ==> FirstIndex(s, r[i].url) < FirstIndex(s, r[j].url))
  {
    UniqueByUrlLast(s);
    UniqueByUrlOrder(s);
    UniqueByUrlCovers(s);
  }

  /** The i-th deal kept is the value of the i-th key: the last deal of s
      with that url. */
  lemma UniqueByUrlLast(s: seq<Deal>)
    ensures var r, keys := UniqueByUrl(s), ByUrl(s).keys;
      forall i :: 0 <= i < |r| ==> r[i].url == keys[i] && Some(r[i]) == LastWith(s, r[i].url)
  {
    var d := ByUrl(s);
    var r := UniqueByUrl(s);
    forall i | 0 <= i < |r| ensures r[i].url == d.keys[i] && Some(r[i]) == LastWith(s, r[i].url) {
      ByUrlKeepsLast(s, d.keys[i]);
    }
  }

  lemma UniqueByUrlOrder(s: seq<Deal>)
    ensures var r := UniqueByUrl(s);
      forall i, j :: 0 <= i < j < |r| ==> FirstIndex(s, r[i].url) < FirstIndex(s, r[j].url)
  {
    var d := ByUrl(s);
    var r := UniqueByUrl(s);
    forall i, j | 0 <= i < j < |r| ensures FirstIndex(s, r[i].url) < FirstIndex(s, r[j].url) {
      ByUrlKeepsLast(s, d.keys[i]);
      ByUrlKeepsLast(s, d.keys[j]);
      ByUrlFirstSeenOrder(s, i, j);
    }
  }

  lemma UniqueByUrlCovers(s: seq<Deal>)
    ensures Urls(UniqueByUrl(s)) == Urls(s)
  {
    var d := ByUrl(s);
    UniqueByUrlLast(s);
    UrlsOfKeys(d.keys, UniqueByUrl(s));
    assert WellFormed(d);
  }

  /** Deals whose urls are the given keys, in order, carry exactly those
      keys. */
  lemma UrlsOfKeys(keys: seq<Option<string>>, r: seq<Deal>)
    requires |r| == |keys| && forall i :: 0 <= i < |r| ==> r[i].url == keys[i]
    ensures forall u :: u in Urls(r) <==> u in keys
  {
    forall u ensures u in Urls(r) <==> u in keys {
      UrlsMembers(r, u);
      if u in keys {
        var k :| 0 <= k < |keys| && keys[k] == u;
        assert r[k].url == u;
      }
    }
  }

  /** A url is in Urls(s) exactly when some deal of s carries it. */
  lemma {:induction false} UrlsMembers(s: seq<Deal>, u: Option<string>)
    ensures u in Urls(s) <==> exists i :: 0 <= i < |s| && s[i].url == u
  {
    if s != [] {
      var init := s[..|s| - 1];
      UrlsMembers(init, u);
      if exists i :: 0 <= i < |init| && init[i].url == u {
        var i :| 0 <= i < |init| && init[i].url == u;
        assert s[i].url == u;
      }
      if exists i :: 0 <= i < |s| && s[i].url == u {
        var i :| 0 <= i < |s| && s[i].url == u;
        if i < |init| {
          assert init[i].url == u;
        }
      }
    }
  }

  /** Two deals with the same url, at 10% and then 25%: the later one is
      kept. Listed the other way round, the 10% deal is kept. */
  lemma UniqueByUrlExample(a: Deal, b: Deal)
    requires a.url == b.url
    ensures UniqueByUrl([a, b]) == [b]
  {
    ByUrlSingleKey(a, b);
    ByUrlKeepsLast([a, b], a.url);
    assert [a, b][..1] == [a];
    assert LastWith([a, b], a.url) == Some(b);
  }

  /** A second deal with the same url adds no key. */
  lemma ByUrlSingleKey(a: Deal, b: Deal)
    requires a.url == b.url
    ensures ByUrl([a, b]).keys == [a.url]
  {
    var s := [a, b];
    assert s[..1] == [a];
    assert [a][..0] == [];
    assert ByUrl([a]).keys == [a.url];
    assert a.url in ByUrl([a]).values;
  }

  /** offer2.py:110. */
  const DealHeader: Row :=
    [Text("Product"), Text("Current Price ($)"), Text("Original Price ($)"), Text("Discount (%)"), Text("URL")]

  /** Reads a data row back into the deal it was written from. */
  function RowDeal(row: Row): Option<Deal> {
    if |row| == 5 && row[0].Text? && row[1].Number? && row[2].Number? && row[3].Number?
       && (row[4].Text? || row[4].NoneValue?)
    then
      var url := if row[4].Text? then Some(row[4].text) else None;
      Some(Deal(row[0].text, row[1].value, row[2].value, url, row[3].value))
    else None
  }

  /** offer2.py:109: the columns title, current_price, original_price,
      discount, url, in that order; nothing of the deal is lost. */
  function DealRow(d: Deal): (row: Row)
    ensures |row| == 5 && RowDeal(row) == Some(d)
  {
    [Text(d.title), Number(d.currentPrice), Number(d.originalPrice), Number(d.discount), TextOrNone(d.url)]
  }

  /** offer2.py:106-112: the table written, or None when the list is empty:
      a DataFrame of no dicts has no 'title' column, and the selection
      raises KeyError. */
  function DealTable(deals: seq<Deal>): (r: Option<seq<Row>>)
    ensures r.Some? <==> deals != []
    ensures r.Some? ==> |r.value| == 1 + |deals| && r.value[0] == DealHeader
    ensures r.Some? ==> forall i :: 0 <= i < |deals| ==> RowDeal(r.value[1 + i]) == Some(deals[i])
  {
    if deals == [] then None
    else Some([DealHeader] + seq(|deals|, i requires 0 <= i < |deals| => DealRow(deals[i])))
  }

  /** offer2.py:140-142: the table saved for the deals of all search terms,
      or None when no deal qualified (nothing is saved). */
  function DealsReport(perTerm: seq<seq<Deal>>, minDiscount: real): Option<seq<Row>> {
    var all := FilterDiscounted(Flatten(perTerm), minDiscount);
    if all != [] then DealTable(UniqueByUrl(all)) else None
  }

  /** offer2.py:127-142: gather with the 10% threshold, then deduplicate
      and save. */
  method RunDealSearch(perTerm: seq<seq<Deal>>) returns (report: Option<seq<Row>>)
    ensures report == DealsReport(perTerm, MinDiscountPercentage)
  {
    var all := CollectDiscounted(perTerm, MinDiscountPercentage);
    if all != [] {
      report := DealTable(UniqueByUrl(all));
    } else {
      report := None;
    }
  }

  /** Every data row of a saved table is a deal of some search term whose
      discount is at least minDiscount. */
  lemma DealsReportFacts(perTerm: seq<seq<Deal>>, minDiscount: real, i: nat)
    requires DealsReport(perTerm, minDiscount).Some?
    requires 1 <= i < |DealsReport(perTerm, minDiscount).value|
    ensures var row := DealsReport(perTerm, minDiscount).value[i];
      && RowDeal(row).Some?
      && RowDeal(row).value in Flatten(perTerm)
      && RowDeal(row).value.discount >= minDiscount
  {
    var all := FilterDiscounted(Flatten(perTerm), minDiscount);
    var r := UniqueByUrl(all);
    UniqueByUrlFacts(all);
    assert RowDeal(DealTable(r).value[1 + (i - 1)]) == Some(r[i - 1]);
    assert r[i - 1] in all;
  }

  /** A saved table has one row per distinct url among the qualifying
      deals: no two data rows share a url, and every qualifying deal's url
      is on some row. */
  lemma DealsReportOnePerUrl(perTerm: seq<seq<Deal>>, minDiscount: real, rows: seq<Row>)
    requires DealsReport(perTerm, minDiscount) == Some(rows)
    ensures forall i :: 1 <= i < |rows| ==> RowDeal(rows[i]).Some?
    ensures forall i, j :: 1 <= i < j < |rows| ==> RowDeal(rows[i]).value.url != RowDeal(rows[j]).value.url
    ensures forall d :: d in FilterDiscounted(Flatten(perTerm), minDiscount) ==>
      exists i :: 1 <= i < |rows| && RowDeal(rows[i]).value.url == d.url
  {
    var all := FilterDiscounted(Flatten(perTerm), minDiscount);
    var r := UniqueByUrl(all);
    assert DealTable(r) == Some(rows);
    DealTableRows(r);
    UniqueByUrlCovers(all);
    UrlsOfMembers(all);
  }

  lemma UrlsOfMembers(s: seq<Deal>)
    ensures forall d :: d in s ==> d.url in Urls(s)
  {
    forall d | d in s ensures d.url in Urls(s) {
      var k :| 0 <= k < |s| && s[k] == d;
    }
  }

  /** The data rows of a table are its deals, in order: distinct urls give
      distinct row urls, and every url of the deals is on some row. */
  lemma DealTableRows(deals: seq<Deal>)
    requires deals != []
    requires forall i, j :: 0 <= i < j < |deals| ==> deals[i].url != deals[j].url
    ensures var rows := DealTable(deals).value;
      && (forall i :: 1 <= i < |rows| ==> RowDeal(rows[i]).Some?)
      && (forall i, j :: 1 <= i < j < |rows| ==> RowDeal(rows[i]).value.url != RowDeal(rows[j]).value.url)
      && (forall u :: u in Urls(deals) ==> exists i :: 1 <= i < |rows| && RowDeal(rows[i]).value.url == u)
  {
    var rows := DealTable(deals).value;
    forall i | 1 <= i < |rows| ensures RowDeal(rows[i]) == Some(deals[i - 1]) {
      assert rows[i] == rows[1 + (i - 1)];
    }
    forall u | u in Urls(deals) ensures exists i :: 1 <= i < |rows| && RowDeal(rows[i]).value.url == u {
      UrlsMembers(deals, u);
      var m :| 0 <= m < |deals| && deals[m].url == u;
      assert RowDeal(rows[m + 1]).value.url == u;
    }
  }
}
