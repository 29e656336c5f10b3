/**
  Ordered queries over the keys of a map. The underlying store iterates
  its keys in ascending order; every navigation query of a transactional
  map is a scan of that ascending sequence.
*/
module OrderedKeys {
  import opened Wrappers

  /** Strictly ascending, hence free of duplicates. */
  predicate Increasing(xs: seq<int>) {
    forall i, j :: 0 <= i < j < |xs| ==> xs[i] < xs[j]
  }

  lemma Pick(s: set<int>) returns (x: int)
    requires s != {}
    ensures x in s
  {
    if forall y :: y !in s {
      assert false;
    }
    x :| x in s;
  }

  lemma MinimumOf(s: set<int>) returns (m: int)
    requires s != {}
    ensures m in s && forall y :: y in s ==> m <= y
    decreases |s|
  {
    var x := Pick(s);
    var rest := s - {x};
    if rest == {} {
      m := x;
      assert s == {x};
    } else {
      var r := MinimumOf(rest);
      m := if x < r then x else r;
      assert s == rest + {x};
    }
  }

  lemma HasMinimum(s: set<int>)
    requires s != {}
    ensures exists m :: m in s && forall y :: y in s ==> m <= y
  {
    var m := MinimumOf(s);
  }

  /** The least element of a non-empty finite set. */
  function Min(s: set<int>): (m: int)
    requires s != {}
    ensures m in s && forall y :: y in s ==> m <= y
  {
    HasMinimum(s);
    var m :| m in s && forall y :: y in s ==> m <= y; m
  }

  /** The keys of a set in ascending order. */
  function SortedKeys(s: set<int>): (r: seq<int>)
    ensures Increasing(r)
    ensures forall x :: x in r <==> x in s
    ensures |r| == |s|
    decreases |s|
  {
    if s == {} then []
    else
      var m := Min(s);
      [m] + SortedKeys(s - {m})
  }

  /** Membership in a non-empty sequence splits into its head and its tail. */
  lemma HeadTail(xs: seq<int>)
    requires |xs| > 0
    ensures forall y :: y in xs <==> y == xs[0] || y in xs[1..]
  {
    assert xs == [xs[0]] + xs[1..];
  }

  /** Membership in a non-empty sequence splits into its front and its last element. */
  lemma FrontLast(xs: seq<int>)
    requires |xs| > 0
    ensures forall y :: y in xs <==> y == xs[|xs| - 1] || y in xs[..|xs| - 1]
  {
    assert xs == xs[..|xs| - 1] + [xs[|xs| - 1]];
  }

  /** The smallest key (the first of the ascending sequence). */
  function FirstIn(xs: seq<int>): (r: Option<int>)
    requires Increasing(xs)
    ensures r.None? <==> |xs| == 0
    ensures r.Some? ==> r.value in xs && forall y :: y in xs ==> r.value <= y
  {
    if |xs| == 0 then None else Some(xs[0])
  }

  /** The largest key (the last of the ascending sequence). */
  function LastIn(xs: seq<int>): (r: Option<int>)
    requires Increasing(xs)
    ensures r.None? <==> |xs| == 0
    ensures r.Some? ==> r.value in xs && forall y :: y in xs ==> y <= r.value
  {
    if |xs| == 0 then None else Some(xs[|xs| - 1])
  }

  /** The first key strictly above `k`. */
  function HigherIn(xs: seq<int>, k: int): (r: Option<int>)
    requires Increasing(xs)
    ensures r.Some? ==> r.value in xs && k < r.value && forall y :: y in xs && k < y ==> r.value <= y
    ensures r.None? <==> forall y :: y in xs ==> y <= k
  {
    if |xs| == 0 then None
    else if k < xs[0] then Some(xs[0])
    else HeadTail(xs); HigherIn(xs[1..], k)
  }

  /** The first key at or above `k`. */
  function CeilingIn(xs: seq<int>, k: int): (r: Option<int>)
    requires Increasing(xs)
    ensures r.Some? ==> r.value in xs && k <= r.value && forall y :: y in xs && k <= y ==> r.value <= y
    ensures r.None? <==> forall y :: y in xs ==> y < k
  {
    if |xs| == 0 then None
    else if k <= xs[0] then Some(xs[0])
    else HeadTail(xs); CeilingIn(xs[1..], k)
  }

  /** The last key strictly below `k`. */
  function LowerIn(xs: seq<int>, k: int): (r: Option<int>)
    requires Increasing(xs)
    ensures r.Some? ==> r.value in xs && r.value < k && forall y :: y in xs && y < k ==> y <= r.value
    ensures r.None? <==> forall y :: y in xs ==> k <= y
  {
    if |xs| == 0 then None
    else if xs[|xs| - 1] < k then Some(xs[|xs| - 1])
    else FrontLast(xs); LowerIn(xs[..|xs| - 1], k)
  }

  /** The last key at or below `k`. */
  function FloorIn(xs: seq<int>, k: int): (r: Option<int>)
    requires Increasing(xs)
    ensures r.Some? ==> r.value in xs && r.value <= k && forall y :: y in xs && y <= k ==> y <= r.value
    ensures r.None? <==> forall y :: y in xs ==> k < y
  {
    if |xs| == 0 then None
    else if xs[|xs| - 1] <= k then Some(xs[|xs| - 1])
    else FrontLast(xs); FloorIn(xs[..|xs| - 1], k)
  }

  /** The keys at or above `from`, still in ascending order. */
  function AtOrAfter(xs: seq<int>, from: int): (r: seq<int>)
    requires Increasing(xs)
    ensures Increasing(r)
    ensures forall y :: y in r <==> y in xs && from <= y
  {
    if |xs| == 0 then []
    else if from <= xs[0] then xs
    else HeadTail(xs); AtOrAfter(xs[1..], from)
  }
}
