/** `MinAggregator`: the aggregator registered under the name "MIN". It has no
    fields, so `compute` is a function of its argument alone. */
module MinAggregator {
  import opened Wrappers
  import AggregationUtil

  /** The message of the exception thrown for a null or empty collection. */
  const EmptyMessage := "Unable to compute a min value of a null or empty collection"

  /** `m` is a value of `s` no greater than any value of `s`. */
  predicate IsMinimum(m: real, s: seq<real>) {
    m in s && forall x :: x in s ==> m <= x
  }

  /** `getName()`: the fixed lookup token of this aggregator. */
  function GetName(): (name: string)
    ensures name == "MIN"
  {
    "MIN"
  }

  /** `compute(values)`: a null (`None`) or empty collection fails; otherwise the
      values are sorted ascending and the first one is returned. */
  function Compute(values: Option<seq<real>>): (r: Result<real, string>)
    ensures r.Failure? <==> values.None? || values.value == []
    ensures r.Failure? ==> r.error == EmptyMessage
    ensures r.Success? ==> IsMinimum(r.value, values.value)
  {
    if values.None? || values.value == [] then
      Failure(EmptyMessage)
    else
      var valueList := AggregationUtil.SortNumbers(values.value, true);
      assert valueList[0] in multiset(values.value);
      assert forall x :: x in values.value ==> x in multiset(valueList);
      Success(valueList[0])
  }

  /** The result is the head of ANY ascending arrangement of the input, not only
      of the one the sort helper happens to build. */
  lemma ComputeIsSortedHead(values: seq<real>, sorted: seq<real>)
    requires values != []
    requires AggregationUtil.SortedAscending(sorted)
    requires multiset(sorted) == multiset(values)
    ensures sorted != [] && Compute(Some(values)) == Success(sorted[0])
  {
    assert |sorted| == |multiset(values)| > 0;
    AggregationUtil.SortedUnique(sorted, AggregationUtil.SortNumbers(values, true));
  }

  /** Presenting the same collection in another iteration order gives the same result. */
  lemma ComputeOrderIndependent(a: seq<real>, b: seq<real>)
    requires multiset(a) == multiset(b)
    ensures Compute(Some(a)) == Compute(Some(b))
  {
    AggregationUtil.SortNumbersOrderIndependent(a, b, true);
  }

  /** Worked cases: duplicates of the minimum, and an integral value written
      both as 3 and 3.0 beside a fractional one. */
  lemma ComputeExamples()
    ensures Compute(Some([5.0, 3.0, 9.0, 3.0])) == Success(3.0)
    ensures Compute(Some([3.0, 3.0, 2.5])) == Success(2.5)
    ensures Compute(Some([])).Failure? && Compute(None).Failure?
  {
  }
}
