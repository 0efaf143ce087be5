# Array.prototype: the `Extensions` sequence utilities

The repository pairs LINQ facts in C# with `Array.prototype` specs in
JavaScript. It writes only one piece of reusable logic itself: the static
class `Extensions` in `Array.prototype/BasicOperations.cs`. That class has
three generic utilities:

- `ForEach(items, action)` calls `action` on every element, in order.
- `FindIndex(items, predicate)` gives the zero-based position of the first
  element the predicate accepts, or -1 when there is none.
- `FindIndex(items, value, comparer = null)` gives the position of the first
  element with `comparer.Equals(value, item)`, or -1. A null comparer falls
  back to `EqualityComparer<T>.Default`.

This project models those three methods in Dafny.

- `Extensions.dfy` (module `Extensions`) holds the model and its proofs.
  - An enumerable is a finite `seq<T>`.
  - An argument that C# allows to be null is a `Nullable<T>`.
  - An exception is the `Threw` case of an `Outcome<T>`. It carries an
    `ArgumentNull(paramName)` or a `NullReference`.
- Both searches are `while` loops over the source's `retVal` counter (for
  the value overload, in `FindIndexWith`, which `FindIndexOfValue` calls
  after resolving the comparer). Each
  one returns early on a match. Each one is proved equal to the
  specification function `FirstMatch`.
- Each search also returns a ghost `probed` trace. It lists the elements
  the predicate or comparer was applied to, in order. This trace states the
  short-circuit: the scan stops at the first match.
- The action of `ForEach` is a world transformer `(W, T) -> W`. It maps the
  state of the world before a call to the state after it. `ForEach` threads
  that state through the calls. A ghost `calls` log records the argument of
  every call.
- `BasicOperations.dfy` (module `BasicOperations`) restates, as
  postconditions, the two C# facts that call `FindIndex`. No C# fact calls
  `ForEach`. Its check, `ForEachSums`, comes from the JavaScript `forEach`
  spec in `Array.prototype/BasicOperations.js`.

Unlike the two `FindIndex` overloads, `ForEach` checks neither argument:

- A null `items` fails in the `foreach` with a null-reference error.
- A null `action` fails only when there is a first element to call it on.
- So a null action on an empty sequence returns normally, and the model
  does the same.

Only the two `FindIndex` overloads throw `ArgumentNullException`. They do
so before they visit any element.

None of the three utilities can change its input. In the model the input
is a `seq` value. No method has a `modifies` clause.

## Model

| member | source | states |
|---|---|---|
| `Extensions.FirstMatch` | Array.prototype/BasicOperations.cs:216-230 | the first-match position is -1 or a valid index into the sequence, and the element at a non-negative result satisfies the predicate |
| `Extensions.NotFoundIffNoMatch` | Array.prototype/BasicOperations.cs:208-211 | the result is -1 if and only if no element satisfies the predicate; in particular an empty sequence gives -1 |
| `Extensions.FoundIsFirst` | Array.prototype/BasicOperations.cs:222-227 | the predicate is false on every element before the returned position |
| `Extensions.FirstMatchIsLeast` | Array.prototype/BasicOperations.cs:221-229 | any position that matches and has no earlier match is exactly the returned position |
| `Extensions.FirstMatchIgnoresSuffix` | Array.prototype/BasicOperations.cs:224-225 | the early return makes the answer independent of everything after the first match |
| `Extensions.FindIndex` | Array.prototype/BasicOperations.cs:216-230 | null `items`, then null `predicate`, throw `ArgumentNullException` naming that parameter before any element is probed; otherwise the method returns `FirstMatch` and has applied the predicate to exactly the elements up to and including the match (all of them if there is none) |
| `Extensions.ResolveComparer` | Array.prototype/BasicOperations.cs:241 | defines `comparer ?? EqualityComparer<T>.Default`: a non-null comparer is used as given, and a null one becomes `==` on `T` |
| `Extensions.EqualsValue` | Array.prototype/BasicOperations.cs:245 | defines the per-item test `comparer.Equals(value, item)`, with the searched value as the first argument |
| `Extensions.FindIndexWith` | Array.prototype/BasicOperations.cs:239-250 | for any element type and a resolved comparer: null `items` throws `ArgumentNullException("items")` before any comparison; otherwise the method returns the first position where `comparer(value, item)` holds, or -1, having compared exactly the items up to and including the match |
| `Extensions.FindIndexOfValue` | Array.prototype/BasicOperations.cs:237-251 | null `items` throws `ArgumentNullException("items")` before any comparison; otherwise the method returns the first position where `comparer(value, item)` holds, with a null comparer replaced by `==`, having compared exactly the items up to and including the match |
| `Extensions.ValueSearchIsFirstEqual` | Array.prototype/BasicOperations.cs:232-236 | the value search gives -1 if and only if no item is comparer-equal to the value (value passed first); otherwise it gives the smallest such position |
| `Extensions.DefaultComparerFindsFirstEqual` | Array.prototype/BasicOperations.cs:241 | with no comparer the result is -1 exactly when the value is not in the sequence; otherwise the item there equals the value and no earlier item does |
| `Extensions.Perform` | Array.prototype/BasicOperations.cs:202-205 | defines the world state after the `foreach` has called the action on each element, first to last; this is the reference that `ForEach` is proved against |
| `Extensions.ForEach` | Array.prototype/BasicOperations.cs:200-206 | with both arguments present, the action is called once per element, in sequence order (the call log equals the sequence), and the world ends in the state those calls produce in turn; a null sequence, or a null action on a non-empty sequence, raises a null-reference error with no call made; a null action on an empty sequence returns normally |
| `Extensions.PerformConcat` | Array.prototype/BasicOperations.cs:202-205 | iteration is sequential: the calls on `a + b` are all the calls on `a`, completed, followed by the calls on `b` |
| `Extensions.PerformSnoc` | Array.prototype/BasicOperations.cs:202-205 | one more element means exactly one more call, made after all earlier ones |
| `Extensions.PerformLogsInOrder` | Array.prototype/BasicOperations.cs:202-205 | an action that appends its argument to a log appends every element exactly once, in order |
| `Extensions.WrapInt32` | Array.prototype/BasicOperations.cs:227 | unchecked `int` increment: the result lies in [-2^31, 2^31) and is congruent to the exact value modulo 2^32 |
| `Extensions.Int32FirstMatch` | Array.prototype/BasicOperations.cs:221-229 | the value the 32-bit `retVal` counter actually returns is always a 32-bit integer, and equals the true first-match position for enumerables of at most 2^31 elements |
| `Extensions.Int32CounterHidesLastMatch` | Array.prototype/BasicOperations.cs:227 | with 2^32 elements whose only match is the last, the 32-bit counter returns -1 although an element matches |
| `Extensions.Int32CounterGoesNegative` | Array.prototype/BasicOperations.cs:227 | a match at position 2^31 is returned as -2^31 |
| `BasicOperations.GetNrs` | Array.prototype/BasicOperations.cs:88-93 | the enumerable `GetNrs()` yields, materialised: three elements, the element at position i being i |
| `BasicOperations.SomeJugglingToFakeJsFindIndex` | Array.prototype/BasicOperations.cs:114 | `GetNrs().FindIndex(x => x == 10)` on `0, 1, 2` returns -1 |
| `BasicOperations.IndexOfDoesntExist` | Array.prototype/BasicOperations.cs:139-141 | `new[] {1, 2, 3}.FindIndex(3)` with the default comparer returns 2 |
| `BasicOperations.ForEachSums` | Array.prototype/BasicOperations.js:192-195 | accumulating `sum += nr` over `0, 1, 2, 3` with `ForEach` completes normally with sum 6, and the action is called on 0, 1, 2, 3 in that order |

## Left out

- The LINQ, `System.Array.FindIndex` and `List<T>.FindIndex` calls in the C# facts are left out. They call .NET library code that is not part of this model.
- `Array.prototype/BasicOperations.js`, `Array.prototype/LessCommonOperations.js` and `spec/helpers/reporter.js` are left out. They only call built-in JavaScript array methods or configure the test runner. `BasicOperations.ForEachSums` mirrors one of the JavaScript facts.
- Lazy enumeration (`yield return` in `GetNrs`) is left out. The enumerable is an already materialised finite sequence, so infinite or re-evaluated enumerables are not modelled.
- Exceptions raised inside a predicate, comparer or action are left out. The source only lets them propagate, so the callbacks are taken to be total and deterministic functions.
- The action's effects are a pure function of the world state and the element. A delegate that observes or changes the enumerable it is called from is not modelled.
- The `IEquatable<T>`/`Object.Equals` dispatch of `EqualityComparer<T>.Default` is not modelled. It is taken to be Dafny's `==` on `T`.
- `Extensions.FindIndexOfValue`: a null comparer is modelled only for element types with Dafny equality, because `EqualityComparer<T>.Default` is taken to be `==`. With a non-null comparer, any element type is covered by `Extensions.FindIndexWith`.
- `Extensions.FindIndex`: the 32-bit wrap-around of `retVal` is not part of this method. It uses an unbounded counter, which is the intended behaviour. The wrap-around as written is `Extensions.Int32FirstMatch` (see Findings).
- `Extensions.FindIndexOfValue`: the 32-bit wrap-around of `retVal` is not part of this method either, for the same reason.
- `Extensions.FindIndexWith`: the 32-bit wrap-around of `retVal` is not part of this method either, for the same reason.

## Findings

| source | as written | input that shows it | evidently intended | confidence | as-written member | corrected member |
|---|---|---|---|---|---|---|
| Array.prototype/BasicOperations.cs:221-229 (and the same counter at 242-250) | `retVal` is an `int` incremented with unchecked arithmetic, so the position wraps modulo 2^32 | an enumerable of 2^32 elements whose only match is the last returns -1 ("not found"); a match at position 2^31 returns -2^31 | the true position is returned, or an overflow error is raised, and -1 means only that nothing matched | not executed; needs an enumerable of more than 2^31 elements and a build without overflow checking (the C# default) | `Extensions.Int32FirstMatch`, `Extensions.Int32CounterHidesLastMatch` | `Extensions.FindIndex`, `Extensions.NotFoundIffNoMatch` |
