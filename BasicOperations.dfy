/**
 * The facts of the `BasicOperations` test class that exercise the
 * `Extensions` utilities, stated as methods whose postconditions are the
 * assertions of those facts.
 */
module BasicOperations {
  import opened Extensions

  /** The enumerable `GetNrs()` yields, materialised. */
  function GetNrs(): (s: seq<int>)
    ensures |s| == 3 && forall i :: 0 <= i < |s| ==> s[i] == i
  {
    [0, 1, 2]
  }

  /** `GetNrs().FindIndex(x => x == 10)` is -1: no element is 10. */
  method SomeJugglingToFakeJsFindIndex() returns (r: Outcome<int>)
    ensures r == Returned(-1)
  {
    var isTen := (x: int) => x == 10;
    ghost var probed;
    r, probed := FindIndex(NonNull(GetNrs()), NonNull(isTen));
    NotFoundIffNoMatch(GetNrs(), isTen);
  }

  /** `new[] {1, 2, 3}.FindIndex(3)` is 2, using the default comparer. */
  method IndexOfDoesntExist() returns (r: Outcome<int>)
    ensures r == Returned(2)
  {
    var input := [1, 2, 3];
    ghost var probed;
    r, probed := FindIndexOfValue(NonNull(input), 3, Null);
    DefaultComparerFindsFirstEqual(input, 3);
  }

  /**
   * Summing `0, 1, 2, 3` into a captured accumulator through `ForEach` gives
   * 6, the action being called on 0, 1, 2 and 3 in that order.
   */
  method ForEachSums() returns (r: Outcome<()>, sum: int, ghost calls: seq<int>)
    ensures r == Returned(()) && sum == 6
    ensures calls == [0, 1, 2, 3]
  {
    var add := (acc: int, x: int) => acc + x;
    r, sum, calls := ForEach(NonNull([0, 1, 2, 3]), NonNull(add), 0);
  }
}
