/** offer.py:74 and offer.py:129: `sorted(products, key=discount,
    reverse=True)`. Python's sort is stable, also with reverse=True, so
    records with equal discounts keep the order in which they were found. */
module OfferRanking {
  import opened OfferRecords

  /** Discounts never increase along the sequence. */
  predicate SortedByDiscount(s: seq<Product>) {
    forall i, j :: 0 <= i < j < |s| ==> s[i].discount >= s[j].discount
  }

  /** The records of s whose discount is d, in the order of s. */
  function WithDiscount(s: seq<Product>, d: real): (r: seq<Product>)
    ensures |r| <= |s|
  {
    if s == [] then []
    else (if s[0].discount == d then [s[0]] else []) + WithDiscount(s[1..], d)
  }

  /** A record whose discount is at least every discount of a sorted list
      can head it. */
  lemma SortedCons(x: Product, t: seq<Product>)
    requires SortedByDiscount(t)
    requires forall j :: 0 <= j < |t| ==> x.discount >= t[j].discount
    ensures SortedByDiscount([x] + t)
  {
    forall i, j | 0 <= i < j < |[x] + t| ensures ([x] + t)[i].discount >= ([x] + t)[j].discount {
      if i > 0 {
        assert ([x] + t)[i] == t[i - 1];
      }
      assert ([x] + t)[j] == t[j - 1];
    }
  }

  /** Puts p in front of the first record whose discount is not larger than
      its own: p lands after every larger discount and before every record of
      s with a discount equal to its own. */
  function InsertByDiscount(p: Product, s: seq<Product>): (r: seq<Product>)
    requires SortedByDiscount(s)
    ensures SortedByDiscount(r)
    ensures multiset(r) == multiset(s) + multiset{p}
  {
    if s == [] then [p]
    else if s[0].discount <= p.discount then
      SortedCons(p, s);
      [p] + s
    else
      var rest := InsertByDiscount(p, s[1..]);
      InsertBounded(p, s, rest);
      SortedCons(s[0], rest);
      assert s == [s[0]] + s[1..];
      [s[0]] + rest
  }

  /** Every record of the insertion into the tail has a discount at most the
      head's. */
  lemma InsertBounded(p: Product, s: seq<Product>, rest: seq<Product>)
    requires SortedByDiscount(s) && s != [] && s[0].discount > p.discount
    requires multiset(rest) == multiset(s[1..]) + multiset{p}
    ensures forall j :: 0 <= j < |rest| ==> s[0].discount >= rest[j].discount
  {
    forall j | 0 <= j < |rest| ensures s[0].discount >= rest[j].discount {
      var x := rest[j];
      assert x in multiset(rest);
      if x != p {
        assert x in multiset(s[1..]);
        var k :| 0 <= k < |s[1..]| && s[1..][k] == x;
        assert s[k + 1] == x;
      }
    }
  }

  /** The sorted list: a stable sort on the discount, largest first. */
  function ByDiscountDesc(s: seq<Product>): (r: seq<Product>)
    ensures SortedByDiscount(r)
    ensures multiset(r) == multiset(s)
  {
    if s == [] then []
    else
      assert s == [s[0]] + s[1..];
      InsertByDiscount(s[0], ByDiscountDesc(s[1..]))
  }

  /** WithDiscount of a list with a given head. */
  lemma WithDiscountCons(x: Product, t: seq<Product>, d: real)
    ensures WithDiscount([x] + t, d) == (if x.discount == d then [x] else []) + WithDiscount(t, d)
  {
    assert ([x] + t)[1..] == t;
  }

  /** Inserting p adds p to its own discount group, in front. */
  lemma {:induction false} InsertKeepsGroups(p: Product, s: seq<Product>, d: real)
    requires SortedByDiscount(s)
    ensures WithDiscount(InsertByDiscount(p, s), d)
         == (if p.discount == d then [p] else []) + WithDiscount(s, d)
  {
    if s == [] {
      WithDiscountCons(p, [], d);
    } else if s[0].discount <= p.discount {
      WithDiscountCons(p, s, d);
    } else {
      var head, tail := s[0], s[1..];
      var rest := InsertByDiscount(p, tail);
      assert InsertByDiscount(p, s) == [head] + rest;
      InsertKeepsGroups(p, tail, d);
      WithDiscountCons(head, rest, d);
      assert s == [head] + tail;
      WithDiscountCons(head, tail, d);
      GroupsCommute(head, p, WithDiscount(tail, d), d);
    }
  }

  /** Records with different discounts never both belong to the group of d,
      so their contributions to it commute. */
  lemma GroupsCommute(x: Product, y: Product, t: seq<Product>, d: real)
    requires x.discount != y.discount
    ensures (if x.discount == d then [x] else []) + ((if y.discount == d then [y] else []) + t)
         == (if y.discount == d then [y] else []) + ((if x.discount == d then [x] else []) + t)
  {
    if x.discount == d {
      assert [] + ([x] + t) == [x] + t;
    } else if y.discount == d {
      assert [] + ([y] + t) == [y] + t;
    } else {
      assert [] + ([] + t) == t;
    }
  }

  /** Stability: within each discount the sorted list keeps the records in
      the order they were found. */
  lemma {:induction false} ByDiscountDescStable(s: seq<Product>, d: real)
    ensures WithDiscount(ByDiscountDesc(s), d) == WithDiscount(s, d)
  {
    if s != [] {
      ByDiscountDescStable(s[1..], d);
      InsertKeepsGroups(s[0], ByDiscountDesc(s[1..]), d);
    }
  }

  lemma {:induction false} WithDiscountNonEmpty(s: seq<Product>, d: real)
    ensures WithDiscount(s, d) != [] <==> exists i :: 0 <= i < |s| && s[i].discount == d
  {
    if s != [] {
      WithDiscountNonEmpty(s[1..], d);
      if exists i :: 0 <= i < |s| && s[i].discount == d {
        var i :| 0 <= i < |s| && s[i].discount == d;
        if i > 0 {
          assert s[1..][i - 1].discount == d;
        }
      }
      if exists i :: 0 <= i < |s[1..]| && s[1..][i].discount == d {
        var i :| 0 <= i < |s[1..]| && s[1..][i].discount == d;
        assert s[i + 1].discount == d;
      }
    }
  }

  /** Two lists sorted by discount that agree on every discount group are
      the same list. */
  lemma {:induction false} SortedGroupsUnique(a: seq<Product>, b: seq<Product>)
    requires SortedByDiscount(a) && SortedByDiscount(b)
    requires forall d :: WithDiscount(a, d) == WithDiscount(b, d)
    ensures a == b
  {
    if a == [] || b == [] {
      if a != [] || b != [] {
        // a discount present in only one of the lists
        var x := if a != [] then a[0].discount else b[0].discount;
        var inA, inB := WithDiscount(a, x), WithDiscount(b, x);
        assert false;
      }
    } else {
      assert WithDiscount(a, a[0].discount) == WithDiscount(b, a[0].discount);
      assert WithDiscount(a, b[0].discount) == WithDiscount(b, b[0].discount);
      SortedHeadsAgree(a, b);
      SameGroupsTails(a, b);
      SortedGroupsUnique(a[1..], b[1..]);
      assert a == [a[0]] + a[1..] && b == [b[0]] + b[1..];
    }
  }

  /** Two non-empty sorted lists with the same groups at their head
      discounts start with the same record: both heads carry the largest
      discount, and each heads the group of that discount. */
  lemma SortedHeadsAgree(a: seq<Product>, b: seq<Product>)
    requires a != [] && b != []
    requires SortedByDiscount(a) && SortedByDiscount(b)
    requires WithDiscount(a, a[0].discount) == WithDiscount(b, a[0].discount)
    requires WithDiscount(a, b[0].discount) == WithDiscount(b, b[0].discount)
    ensures a[0] == b[0]
  {
    var m, n := a[0].discount, b[0].discount;
    assert WithDiscount(a, m) == [a[0]] + WithDiscount(a[1..], m);
    assert WithDiscount(b, n) == [b[0]] + WithDiscount(b[1..], n);
    WithDiscountNonEmpty(b, m);
    var j :| 0 <= j < |b| && b[j].discount == m;
    assert n >= m by {
      if j > 0 {
        assert b[0].discount >= b[j].discount;
      }
    }
    WithDiscountNonEmpty(a, n);
    var i :| 0 <= i < |a| && a[i].discount == n;
    assert m >= n by {
      if i > 0 {
        assert a[0].discount >= a[i].discount;
      }
    }
    assert WithDiscount(a, m)[0] == a[0];
  }

  /** Lists with the same groups and the same head have tails with the same
      groups. */
  lemma SameGroupsTails(a: seq<Product>, b: seq<Product>)
    requires a != [] && b != [] && a[0] == b[0]
    requires forall d :: WithDiscount(a, d) == WithDiscount(b, d)
    ensures forall d :: WithDiscount(a[1..], d) == WithDiscount(b[1..], d)
  {
    forall d ensures WithDiscount(a[1..], d) == WithDiscount(b[1..], d) {
      var h := if a[0].discount == d then [a[0]] else [];
      assert WithDiscount(a, d) == h + WithDiscount(a[1..], d);
      assert WithDiscount(b, d) == h + WithDiscount(b[1..], d);
      assert (h + WithDiscount(a[1..], d))[|h|..] == WithDiscount(a[1..], d);
      assert (h + WithDiscount(b[1..], d))[|h|..] == WithDiscount(b[1..], d);
    }
  }

  /** The sort is characterised by its two promises: any list sorted by
      discount that keeps every discount group of s in its original order is
      ByDiscountDesc(s). */
  lemma ByDiscountDescUnique(s: seq<Product>, r: seq<Product>)
    requires SortedByDiscount(r)
    requires forall d :: WithDiscount(r, d) == WithDiscount(s, d)
    ensures r == ByDiscountDesc(s)
  {
    forall d ensures WithDiscount(r, d) == WithDiscount(ByDiscountDesc(s), d) {
      ByDiscountDescStable(s, d);
    }
    SortedGroupsUnique(r, ByDiscountDesc(s));
  }

  /** The first record has the largest discount of all records found. */
  lemma ByDiscountDescFirstIsBest(s: seq<Product>, p: Product)
    requires p in s
    ensures ByDiscountDesc(s) != [] && ByDiscountDesc(s)[0].discount >= p.discount
  {
    var r := ByDiscountDesc(s);
    assert p in multiset(r);
    var k :| 0 <= k < |r| && r[k] == p;
  }
}
