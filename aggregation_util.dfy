/** The numeric ordering helper the order-statistic aggregators rely on
    (`AggregationUtil.sortNumbers(values, ascending)`). Numbers are compared by
    exact numeric value, so every Java `Number` is modelled as a `real`. */
module AggregationUtil {

  predicate SortedAscending(s: seq<real>) {
    forall i, j :: 0 <= i < j < |s| ==> s[i] <= s[j]
  }

  predicate SortedDescending(s: seq<real>) {
    forall i, j :: 0 <= i < j < |s| ==> s[i] >= s[j]
  }

  /** Inserts `x` into the ascending sequence `s`, before the first element not below it. */
  function Insert(x: real, s: seq<real>): (r: seq<real>)
    requires SortedAscending(s)
    ensures SortedAscending(r)
    ensures multiset(r) == multiset(s) + multiset{x}
    ensures r != [] && r[0] == if s == [] || x <= s[0] then x else s[0]
  {
    if s == [] then [x]
    else if x <= s[0] then [x] + s
    else
      assert s == [s[0]] + s[1..];
      [s[0]] + Insert(x, s[1..])
  }

  /** A stable ascending insertion sort. */
  function InsertionSort(s: seq<real>): (r: seq<real>)
    ensures SortedAscending(r)
    ensures multiset(r) == multiset(s)
  {
    if s == [] then []
    else
      assert s == [s[0]] + s[1..];
      Insert(s[0], InsertionSort(s[1..]))
  }

  function Reversed(s: seq<real>): (r: seq<real>)
    ensures |r| == |s|
    ensures forall i :: 0 <= i < |s| ==> r[i] == s[|s| - 1 - i]
    ensures multiset(r) == multiset(s)
  {
    if s == [] then []
    else
      assert s == [s[0]] + s[1..];
      Reversed(s[1..]) + [s[0]]
  }

  /** `sortNumbers(values, ascending)`: a new sequence holding every input value
      exactly as often as the input does, ascending when `ascending` holds and
      descending (the reverse of the ascending order) otherwise. The input is a
      value and is left as it was. */
  function SortNumbers(values: seq<real>, ascending: bool): (r: seq<real>)
    ensures multiset(r) == multiset(values)
    ensures ascending ==> SortedAscending(r)
    ensures !ascending ==> SortedDescending(r)
  {
    var up := InsertionSort(values);
    if ascending then up else Reversed(up)
  }

  /** The head of a non-empty ascending sequence is no greater than any value it holds. */
  lemma HeadIsLeast(s: seq<real>, x: real)
    requires SortedAscending(s) && s != []
    requires x in multiset(s)
    ensures s[0] <= x
  {
  }

  /** Taking the head off removes one copy of it from the bag. */
  lemma TailBag(s: seq<real>)
    requires s != []
    ensures multiset(s[1..]) == multiset(s) - multiset{s[0]}
  {
    assert s == [s[0]] + s[1..];
  }

  lemma TailSorted(s: seq<real>)
    requires SortedAscending(s) && s != []
    ensures SortedAscending(s[1..])
  {
  }

  /** Two non-empty ascending sequences over the same bag start with the same value. */
  lemma SameHead(a: seq<real>, b: seq<real>)
    requires SortedAscending(a) && SortedAscending(b)
    requires multiset(a) == multiset(b) && a != []
    ensures b != [] && a[0] == b[0]
  {
    assert a[0] in multiset(a);
    assert b != [];
    assert b[0] in multiset(b);
    HeadIsLeast(a, b[0]);
    HeadIsLeast(b, a[0]);
  }

  /** Two ascending sequences holding the same values the same number of times are equal:
      the ascending order of a bag is unique. */
  lemma {:induction false} SortedUnique(a: seq<real>, b: seq<real>)
    requires SortedAscending(a) && SortedAscending(b)
    requires multiset(a) == multiset(b)
    ensures a == b
  {
    if a == [] {
      assert |multiset(b)| == 0;
    } else {
      SameHead(a, b);
      TailBag(a);
      TailBag(b);
      TailSorted(a);
      TailSorted(b);
      SortedUnique(a[1..], b[1..]);
      assert a == [a[0]] + a[1..];
      assert b == [b[0]] + b[1..];
    }
  }

  lemma ReversedTwice(s: seq<real>)
    ensures Reversed(Reversed(s)) == s
  {
  }

  /** Reading a descending sequence backwards gives an ascending one over the same bag. */
  lemma ReversedDescending(s: seq<real>)
    requires SortedDescending(s)
    ensures SortedAscending(Reversed(s)) && multiset(Reversed(s)) == multiset(s)
  {
  }

  /** Two descending sequences holding the same values the same number of times are equal. */
  lemma DescendingUnique(a: seq<real>, b: seq<real>)
    requires SortedDescending(a) && SortedDescending(b)
    requires multiset(a) == multiset(b)
    ensures a == b
  {
    ReversedDescending(a);
    ReversedDescending(b);
    SortedUnique(Reversed(a), Reversed(b));
    ReversedTwice(a);
    ReversedTwice(b);
  }

  /** Descending order is the reverse of ascending order, whichever sort produced them. */
  lemma SortNumbersDescendingIsReverse(values: seq<real>)
    ensures SortNumbers(values, false) == Reversed(SortNumbers(values, true))
  {
    var down := SortNumbers(values, false);
    ReversedDescending(down);
    SortedUnique(Reversed(down), SortNumbers(values, true));
    ReversedTwice(down);
  }

  /** The sorted result depends only on the bag of input values, not on the
      order in which the collection presents them. */
  lemma SortNumbersOrderIndependent(a: seq<real>, b: seq<real>, ascending: bool)
    requires multiset(a) == multiset(b)
    ensures SortNumbers(a, ascending) == SortNumbers(b, ascending)
  {
    if ascending {
      SortedUnique(SortNumbers(a, true), SortNumbers(b, true));
    } else {
      DescendingUnique(SortNumbers(a, false), SortNumbers(b, false));
    }
  }
}
