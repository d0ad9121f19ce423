# Minimum aggregator of the OpenMRS reporting module

This project models `MinAggregator`, the indicator aggregator that the
reporting module looks up under the name `"MIN"`, together with the ascending
numeric sort it delegates to (`AggregationUtil.sortNumbers`).

- `AggregationUtil` (`aggregation_util.dfy`) models `sortNumbers(values, ascending)`
  by a verified insertion sort. Its contract is the helper's promise: the result is
  a permutation of the input, ascending (or descending, the reverse order). The
  helper's own source is not part of this model, so only this contract is relied on.
- `MinAggregator` (`min_aggregator.dfy`) models `getName()` and `compute(values)`.
  A Java collection is a `seq<real>` in iteration order. A null collection is
  `None`. The thrown `RuntimeException` is a `Failure` that carries the source's message.
- `Wrappers` (`wrappers.dfy`) holds the `Option` and `Result` datatypes.

Java `Number` values of every boxed type are compared by numeric value, so each
is modelled as a mathematical `real`. Integer 3 and floating 3.0 are the same value.

The class has no fields and an empty constructor (lines 28-30), so `compute` is
modelled as a Dafny function of its argument alone. Repeated calls on the same
input therefore give the same result by construction, with no state to drift.

## Model

| member | source | states |
|---|---|---|
| MinAggregator.GetName | api/src/main/java/org/openmrs/module/reporting/indicator/aggregation/MinAggregator.java:32-34 | the lookup name is always the fixed token "MIN" |
| MinAggregator.Compute | api/src/main/java/org/openmrs/module/reporting/indicator/aggregation/MinAggregator.java:37-43 | fails exactly when the collection is null or empty, with the source's message and no default value; otherwise returns a value of the input that is no greater than any input value, i.e. the minimum the class comment promises |
| MinAggregator.ComputeIsSortedHead | api/src/main/java/org/openmrs/module/reporting/indicator/aggregation/MinAggregator.java:41-42 | for a non-empty input, the result is the first element of every ascending permutation of the input |
| MinAggregator.ComputeOrderIndependent | api/src/main/java/org/openmrs/module/reporting/indicator/aggregation/MinAggregator.java:41-42 | two collections holding the same values the same number of times, in any order, give the same result |
| MinAggregator.ComputeExamples | api/src/main/java/org/openmrs/module/reporting/indicator/aggregation/MinAggregator.java:37-43 | the minimum of 5, 3, 9, 3 is 3; the minimum of 3, 3.0, 2.5 is 2.5; the empty and the null collection fail |
| AggregationUtil.SortNumbers | api/src/main/java/org/openmrs/module/reporting/indicator/aggregation/MinAggregator.java:41 | the sorted list is a permutation of the input, ascending when asked for ascending order and descending otherwise |
| AggregationUtil.SortedUnique | api/src/main/java/org/openmrs/module/reporting/indicator/aggregation/MinAggregator.java:41 | two ascending lists holding the same values the same number of times are equal, so the ascending order `compute` reads its result from is unique |
| AggregationUtil.DescendingUnique | api/src/main/java/org/openmrs/module/reporting/indicator/aggregation/MinAggregator.java:41 | two descending lists holding the same values the same number of times are equal |
| AggregationUtil.SortNumbersDescendingIsReverse | api/src/main/java/org/openmrs/module/reporting/indicator/aggregation/MinAggregator.java:41 | the descending sort is the reverse of the ascending one, derived from the sort's contract alone |
| AggregationUtil.SortNumbersOrderIndependent | api/src/main/java/org/openmrs/module/reporting/indicator/aggregation/MinAggregator.java:41 | the sorted list depends only on the bag of input values, not on their iteration order |

## Left out

- The `@Handler` annotation (line 27) and the plugin discovery that registers aggregators by name: a reflection mechanism outside this file. Only the name itself is modelled.
- The "non-numeric" failure the class comment mentions (lines 22-23): it comes from Java casts at run time, not from logic in this class.
- Java `Number` heterogeneity and floating point: `Integer` and `Double` boxing, NaN, infinities and rounding are not modelled. Values are exact reals.
- The exception type: the `RuntimeException` is a `Failure` with its message. Stack unwinding is not modelled.
- The internals of `AggregationUtil.sortNumbers`: its source is not part of this model. The insertion sort stands in for it and only its contract is used. Which of several equal values comes first is not observable on exact reals.
- MinAggregator.Compute: null elements inside a non-null collection are not modelled, because a `seq<real>` cannot hold them. The class's own TODO (line 24) leaves that case open. What `compute` does with `[null]` or `[null, 3]` depends on the comparator inside `sortNumbers`, whose source is not part of this model: it might throw, or return `null` for a one-element list. "Fails exactly when the collection is null or empty" is therefore stated for null-free collections only.
- The other aggregators (max, sum, average, count, median) and a name-based registry: they are outside this model.
- The persistence layer (`HibernateReportDAO`, package `org.openmrs.module.report`): Hibernate session and query plumbing with Spring transactions. Its behaviour lives in Hibernate and the database, not in the aggregation code.
