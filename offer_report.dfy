/** offer.py:135-205: the CSV table save_to_csv writes and the main block
    that decides whether to write it. The file name (query and timestamp),
    the file itself and the console output are not modelled; the table is
    the sequence of rows handed to csv.writer. */
module OfferReport {
  import opened Wrappers
  import opened Table
  import opened OfferRecords
  import opened OfferSearch

  /** offer.py:141. */
  const Header: Row :=
    [Text("Store"), Text("Title"), Text("Current Price"), Text("Original Price"), Text("Discount %"), Text("Link")]

  /** Reads a data row back: the store and the record it was written from. */
  function RowProduct(row: Row): Option<(string, Product)> {
    if |row| == 6 && row[0].Text? && row[1].Text? && row[2].Money? && row[3].Money? && row[4].Percent?
       && (row[5].Text? || row[5].NoneValue?)
    then
      var link := if row[5].Text? then Some(row[5].text) else None;
      Some((row[0].text, Product(row[1].text, row[2].amount, row[3].amount, row[4].share, link)))
    else None
  }

  /** offer.py:144-151 and 154-161: one data row; every field of the record
      is written, so the row determines the store and the record. */
  function ProductRow(store: string, p: Product): (row: Row)
    ensures RowProduct(row) == Some((store, p))
    ensures row[0] == Text(store)
  {
    [Text(store), Text(p.title), Money(p.price), Money(p.originalPrice), Percent(p.discount), TextOrNone(p.link)]
  }

  /** The data rows of one store, in list order. */
  function StoreRows(store: string, products: seq<Product>): (rows: seq<Row>)
    ensures |rows| == |products|
    ensures forall i :: 0 <= i < |rows| ==> RowProduct(rows[i]) == Some((store, products[i]))
  {
    seq(|products|, i requires 0 <= i < |products| => ProductRow(store, products[i]))
  }

  /** The whole table: the header, the Amazon rows, then the Walmart rows. */
  function CsvRows(amazon: seq<Product>, walmart: seq<Product>): (rows: seq<Row>)
    ensures |rows| == 1 + |amazon| + |walmart| && rows[0] == Header
    ensures forall i :: 0 <= i < |amazon| ==> RowProduct(rows[1 + i]) == Some(("Amazon", amazon[i]))
    ensures forall j :: 0 <= j < |walmart| ==>
      RowProduct(rows[1 + |amazon| + j]) == Some(("Walmart", walmart[j]))
  {
    var rows := [Header] + StoreRows("Amazon", amazon) + StoreRows("Walmart", walmart);
    assert forall i :: 0 <= i < |amazon| ==> rows[1 + i] == StoreRows("Amazon", amazon)[i];
    assert forall j :: 0 <= j < |walmart| ==> rows[1 + |amazon| + j] == StoreRows("Walmart", walmart)[j];
    rows
  }

  /** offer.py:135-163: the two loops of save_to_csv. */
  method SaveToCsv(amazon: seq<Product>, walmart: seq<Product>) returns (rows: seq<Row>)
    ensures rows == CsvRows(amazon, walmart)
  {
    rows := [Header];
    for i := 0 to |amazon|
      invariant rows == [Header] + StoreRows("Amazon", amazon[..i])
    {
      assert StoreRows("Amazon", amazon[..i + 1]) == StoreRows("Amazon", amazon[..i]) + [ProductRow("Amazon", amazon[i])];
      rows := rows + [ProductRow("Amazon", amazon[i])];
    }
    assert amazon[..|amazon|] == amazon;
    var amazonRows := rows;
    for j := 0 to |walmart|
      invariant rows == amazonRows + StoreRows("Walmart", walmart[..j])
    {
      assert StoreRows("Walmart", walmart[..j + 1]) == StoreRows("Walmart", walmart[..j]) + [ProductRow("Walmart", walmart[j])];
      rows := rows + [ProductRow("Walmart", walmart[j])];
    }
    assert walmart[..|walmart|] == walmart;
  }

  /** offer.py:165-205: the table the run writes, or None when both searches
      came back empty ("No results found to save."). */
  function ComparisonReport(amazonPage: Page<AmazonItem>, walmartPage: Page<WalmartItem>, binding: PriceTextBinding)
    : Option<seq<Row>>
  {
    var amazon := AmazonResults(amazonPage);
    var walmart := WalmartResults(walmartPage, binding);
    if amazon != [] || walmart != [] then Some(CsvRows(amazon, walmart)) else None
  }

  /** The main block: search both stores, then save when either found
      something. */
  method CompareStores(amazonPage: Page<AmazonItem>, walmartPage: Page<WalmartItem>, binding: PriceTextBinding)
    returns (report: Option<seq<Row>>)
    ensures report == ComparisonReport(amazonPage, walmartPage, binding)
    ensures report.Some? <==> AmazonResults(amazonPage) != [] || WalmartResults(walmartPage, binding) != []
  {
    var amazon := SearchAmazon(amazonPage);
    var walmart := SearchWalmart(walmartPage, binding);
    if amazon != [] || walmart != [] {
      var rows := SaveToCsv(amazon, walmart);
      report := Some(rows);
    } else {
      report := None;
    }
  }

  /** As written, a report is saved exactly when Amazon found something, and
      every data row in it is an Amazon row. */
  lemma ComparisonAsWritten(amazonPage: Page<AmazonItem>, walmartPage: Page<WalmartItem>)
    ensures var report := ComparisonReport(amazonPage, walmartPage, Unbound);
      && (report.Some? <==> AmazonResults(amazonPage) != [])
      && (report.Some? ==> |report.value| == 1 + |AmazonResults(amazonPage)|)
      && (report.Some? ==> forall i :: 1 <= i < |report.value| ==> report.value[i][0] == Text("Amazon"))
  {
    WalmartAsWrittenFindsNothing(walmartPage);
    var amazon := AmazonResults(amazonPage);
    var rows := CsvRows(amazon, []);
    forall i | 1 <= i < |rows| ensures rows[i][0] == Text("Amazon") {
      assert RowProduct(rows[1 + (i - 1)]) == Some(("Amazon", amazon[i - 1]));
    }
  }
}
