/** offer2.py:26-99: search_amazon_products, the retrying search. Each
    attempt either fails before the item loop (driver.get, the page wait or
    find_elements raised) or yields the result elements; the first attempt
    that yields elements ends the loop. */
module DealSearch {
  import opened Wrappers
  import opened SeqUtil
  import opened DealExtraction

  /** The outcome of one pass through the retry loop's try block, up to the
      item loop. */
  datatype Attempt = Failed | Succeeded(items: seq<DealItem>)

  /** `items[:max_items]`: a Python slice, so a negative bound drops that
      many elements from the end. */
  function FirstItems(items: seq<DealItem>, maxItems: int): (r: seq<DealItem>)
    ensures |r| <= |items| && r == items[..|r|]
    ensures maxItems >= 0 ==> |r| == if maxItems < |items| then maxItems else |items|
    ensures maxItems < 0 ==> |r| == if |items| + maxItems > 0 then |items| + maxItems else 0
  {
    var n := if maxItems >= 0 then maxItems else |items| + maxItems;
    if n <= 0 then [] else if n < |items| then items[..n] else items
  }

  /** The elements of the first successful attempt among attempts k, k + 1,
      ... that the loop still makes, or None when every one of them fails. */
  function FirstSuccess(attempts: nat -> Attempt, maxRetries: int, k: nat): Option<seq<DealItem>>
    decreases maxRetries - k
  {
    if k >= maxRetries then None
    else match attempts(k)
      case Succeeded(items) => Some(items)
      case Failed => FirstSuccess(attempts, maxRetries, k + 1)
  }

  /** How many attempts the loop makes from attempt k on. */
  function AttemptsFrom(attempts: nat -> Attempt, maxRetries: int, k: nat): nat
    decreases maxRetries - k
  {
    if k >= maxRetries then 0
    else match attempts(k)
      case Succeeded(_) => 1
      case Failed => 1 + AttemptsFrom(attempts, maxRetries, k + 1)
  }

  /** What search_amazon_products returns. */
  function DealsFound(attempts: nat -> Attempt, maxItems: int, maxRetries: int): seq<Deal> {
    match FirstSuccess(attempts, maxRetries, 0)
    case None => []
    case Some(items) => FilterMap(FirstItems(items, maxItems), ExtractDeal)
  }

  /** offer2.py:26-99. `attempts(k)` is the outcome of the attempt made when
      retry_count is k; `made` counts the page loads. */
  method SearchAmazonProducts(attempts: nat -> Attempt, maxItems: int, maxRetries: int)
    returns (products: seq<Deal>, ghost made: nat)
    ensures products == DealsFound(attempts, maxItems, maxRetries)
    ensures made == AttemptsFrom(attempts, maxRetries, 0)
  {
    products := [];
    var retryCount: nat := 0;
    made := 0;
    while retryCount < maxRetries
      invariant products == []
      invariant made == retryCount
      invariant FirstSuccess(attempts, maxRetries, 0) == FirstSuccess(attempts, maxRetries, retryCount)
      invariant AttemptsFrom(attempts, maxRetries, 0) == made + AttemptsFrom(attempts, maxRetries, retryCount)
      decreases maxRetries - retryCount
    {
      made := made + 1;
      match attempts(retryCount) {
        case Failed =>
          retryCount := retryCount + 1;
        case Succeeded(items) =>
          products := CollectEach(FirstItems(items, maxItems), ExtractDeal);
          break;
      }
    }
  }

  /** The loop makes at most max_retries attempts (none when max_retries is
      not positive), every attempt but the last one failed, and a successful
      attempt is the last one. */
  lemma {:induction false} AttemptsBounded(attempts: nat -> Attempt, maxRetries: int, k: nat)
    ensures AttemptsFrom(attempts, maxRetries, k) <= if maxRetries - k > 0 then maxRetries - k else 0
    ensures forall j :: k <= j < k + AttemptsFrom(attempts, maxRetries, k) - 1 ==> attempts(j).Failed?
    ensures FirstSuccess(attempts, maxRetries, k).Some? ==>
      AttemptsFrom(attempts, maxRetries, k) > 0
      && attempts(k + AttemptsFrom(attempts, maxRetries, k) - 1).Succeeded?
    decreases maxRetries - k
  {
    if k < maxRetries && attempts(k).Failed? {
      AttemptsBounded(attempts, maxRetries, k + 1);
    }
  }

  /** When every attempt fails the result is empty; otherwise it comes from
      the first successful attempt alone. */
  lemma {:induction false} FirstSuccessIsFirst(attempts: nat -> Attempt, maxRetries: int, k: nat, j: nat)
    requires k <= j < maxRetries && attempts(j).Succeeded?
    requires forall i :: k <= i < j ==> attempts(i).Failed?
    ensures FirstSuccess(attempts, maxRetries, k) == Some(attempts(j).items)
    decreases j - k
  {
    if k < j {
      FirstSuccessIsFirst(attempts, maxRetries, k + 1, j);
    }
  }

  lemma {:induction false} AllFailedFindsNothing(attempts: nat -> Attempt, maxRetries: int, k: nat)
    requires forall i :: k <= i < maxRetries ==> attempts(i).Failed?
    ensures FirstSuccess(attempts, maxRetries, k) == None
    decreases maxRetries - k
  {
    if k < maxRetries {
      AllFailedFindsNothing(attempts, maxRetries, k + 1);
    }
  }

  /** At most max_items elements are examined, and each yields at most one
      deal; every deal returned has a list price above its current price. */
  lemma DealsFoundFacts(attempts: nat -> Attempt, maxItems: int, maxRetries: int, d: Deal)
    ensures maxItems >= 0 ==> |DealsFound(attempts, maxItems, maxRetries)| <= maxItems
    ensures d in DealsFound(attempts, maxItems, maxRetries) ==> d.originalPrice > d.currentPrice
  {
    match FirstSuccess(attempts, maxRetries, 0)
    case None =>
    case Some(items) =>
      var first := FirstItems(items, maxItems);
      FilterMapMembers(first, ExtractDeal, d);
      if d in DealsFound(attempts, maxItems, maxRetries) {
        var i :| 0 <= i < |first| && ExtractDeal(first[i]) == Some(d);
      }
  }
}
