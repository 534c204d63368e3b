/** Sequence helpers shared by the two scrapers' loops. */
module SeqUtil {
  import opened Wrappers

  /** The values f yields, in the order of s: what a loop builds when it
      appends one value per element and skips the elements where f fails. */
  function FilterMap<A, B>(s: seq<A>, f: A -> Option<B>): (r: seq<B>)
    ensures |r| <= |s|
  {
    if s == [] then []
    else
      var init := FilterMap(s[..|s| - 1], f);
      match f(s[|s| - 1])
      case Some(b) => init + [b]
      case None => init
  }

  /** How many elements f yields a value for. */
  function CountSome<A, B>(s: seq<A>, f: A -> Option<B>): nat {
    if s == [] then 0
    else CountSome(s[..|s| - 1], f) + (if f(s[|s| - 1]).Some? then 1 else 0)
  }

  /** One output per element that yields a value, and none for the others. */
  lemma {:induction false} FilterMapLength<A, B>(s: seq<A>, f: A -> Option<B>)
    ensures |FilterMap(s, f)| == CountSome(s, f)
  {
    if s != [] {
      FilterMapLength(s[..|s| - 1], f);
    }
  }

  /** Every output comes from some element, and every element's value is
      output. */
  lemma {:induction false} FilterMapMembers<A, B>(s: seq<A>, f: A -> Option<B>, b: B)
    ensures b in FilterMap(s, f) <==> exists i :: 0 <= i < |s| && f(s[i]) == Some(b)
  {
    if s != [] {
      var init := s[..|s| - 1];
      FilterMapMembers(init, f, b);
      if exists i :: 0 <= i < |init| && f(init[i]) == Some(b) {
        var i :| 0 <= i < |init| && f(init[i]) == Some(b);
        assert f(s[i]) == Some(b);
      }
      if exists i :: 0 <= i < |s| && f(s[i]) == Some(b) {
        var i :| 0 <= i < |s| && f(s[i]) == Some(b);
        if i < |init| {
          assert f(init[i]) == Some(b);
        }
      }
    }
  }

  /** Elements that never yield a value contribute nothing. */
  lemma {:induction false} FilterMapAllFail<A, B>(s: seq<A>, f: A -> Option<B>)
    requires forall i :: 0 <= i < |s| ==> f(s[i]).None?
    ensures FilterMap(s, f) == []
  {
    if s != [] {
      FilterMapAllFail(s[..|s| - 1], f);
    }
  }

  /** The loop `for x in items: try: found.append(...) except: pass`, with
      f(x) == None where the body raises. */
  method CollectEach<A, B>(items: seq<A>, f: A -> Option<B>) returns (found: seq<B>)
    ensures found == FilterMap(items, f)
  {
    found := [];
    for i := 0 to |items|
      invariant found == FilterMap(items[..i], f)
    {
      FilterMapStep(items, i, f);
      match f(items[i]) {
        case Some(b) => found := found + [b];
        case None =>
      }
    }
    assert items[..|items|] == items;
  }

  lemma FilterMapStep<A, B>(s: seq<A>, i: nat, f: A -> Option<B>)
    requires i < |s|
    ensures FilterMap(s[..i + 1], f)
         == FilterMap(s[..i], f) + (match f(s[i]) case Some(b) => [b] case None => [])
  {
    assert s[..i + 1][..i] == s[..i];
  }
}
