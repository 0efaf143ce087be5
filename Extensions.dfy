/**
 * The `Extensions` static class of `Array.prototype/BasicOperations.cs`:
 * `ForEach(items, action)`, `FindIndex(items, predicate)` and
 * `FindIndex(items, value, comparer = null)`.
 *
 * An `IEnumerable<T>` is modelled as an already materialised `seq<T>`, a
 * reference that may be null as `Nullable`, and a thrown exception as the
 * `Threw` outcome. Predicates, comparers and actions are total.
 */
module Extensions {

  /** A reference argument, which C# allows to be null. */
  datatype Nullable<+T> = Null | NonNull(value: T)

  /** The exceptions the three utilities can raise themselves. */
  datatype Error =
    | ArgumentNull(paramName: string)  // ArgumentNullException(nameof(paramName))
    | NullReference                    // a null enumerable or delegate is dereferenced

  /** How a call ends: it returns a value or it throws. */
  datatype Outcome<+T> = Returned(value: T) | Threw(error: Error)

  // ---------------------------------------------------------------------------
  // Specification of the search: the position of the first match.
  // ---------------------------------------------------------------------------

  /** The zero-based position of the first element of `s` satisfying `p`, or -1. */
  function FirstMatch<T>(s: seq<T>, p: T -> bool): (r: int)
    ensures -1 <= r < |s|
    ensures r >= 0 ==> p(s[r])
  {
    if s == [] then -1
    else if p(s[0]) then 0
    else
      var k := FirstMatch(s[1..], p);
      if k == -1 then -1 else k + 1
  }

  /** -1 is returned exactly when no element matches (so always for an empty sequence). */
  lemma {:induction false} NotFoundIffNoMatch<T>(s: seq<T>, p: T -> bool)
    ensures FirstMatch(s, p) == -1 <==> forall i :: 0 <= i < |s| ==> !p(s[i])
  {
    if s != [] && !p(s[0]) {
      NotFoundIffNoMatch(s[1..], p);
      assert forall i :: 1 <= i < |s| ==> s[i] == s[1..][i - 1];
    }
  }

  /** A found position is preceded only by elements that do not match. */
  lemma {:induction false} FoundIsFirst<T>(s: seq<T>, p: T -> bool)
    ensures forall j :: 0 <= j < FirstMatch(s, p) ==> !p(s[j])
  {
    if s != [] && !p(s[0]) {
      FoundIsFirst(s[1..], p);
      assert forall j :: 1 <= j < |s| ==> s[j] == s[1..][j - 1];
    }
  }

  /** Conversely, the first matching position is the one `FirstMatch` gives. */
  lemma FirstMatchIsLeast<T>(s: seq<T>, p: T -> bool, i: int)
    requires 0 <= i < |s| && p(s[i])
    requires forall j :: 0 <= j < i ==> !p(s[j])
    ensures FirstMatch(s, p) == i
  {
    NotFoundIffNoMatch(s, p);
    FoundIsFirst(s, p);
  }

  /**
   * The search short-circuits: whatever follows the first match, the answer
   * is the same, so the elements after it never need to be looked at.
   */
  lemma FirstMatchIgnoresSuffix<T>(s: seq<T>, p: T -> bool, t: seq<T>)
    requires FirstMatch(s, p) >= 0
    ensures FirstMatch(s[..FirstMatch(s, p) + 1] + t, p) == FirstMatch(s, p)
  {
    var k := FirstMatch(s, p);
    var u := s[..k + 1] + t;
    FoundIsFirst(s, p);
    assert forall j :: 0 <= j <= k ==> u[j] == s[j];
    FirstMatchIsLeast(u, p, k);
  }

  /** The elements a scan that stops at position `k` (or runs through, for -1) has looked at. */
  function Scanned<T>(s: seq<T>, k: int): (r: seq<T>)
    requires -1 <= k < |s|
    ensures |r| == if k == -1 then |s| else k + 1
    ensures r <= s
  {
    if k == -1 then s else s[..k + 1]
  }

  // ---------------------------------------------------------------------------
  // FindIndex(items, predicate)
  // ---------------------------------------------------------------------------

  /**
   * `FindIndex(items, predicate)`. The ghost `probed` lists, in order, the
   * elements the predicate was applied to.
   */
  method FindIndex<T>(items: Nullable<seq<T>>, pred: Nullable<T -> bool>)
    returns (r: Outcome<int>, ghost probed: seq<T>)
    ensures items.Null? ==> r == Threw(ArgumentNull("items"))
    ensures items.NonNull? && pred.Null? ==> r == Threw(ArgumentNull("predicate"))
    ensures items.NonNull? && pred.NonNull? ==> r == Returned(FirstMatch(items.value, pred.value))
    ensures items.Null? || pred.Null? ==> probed == []
    ensures items.NonNull? && pred.NonNull? ==>
      probed == Scanned(items.value, FirstMatch(items.value, pred.value))
  {
    probed := [];
    if items.Null? {
      r := Threw(ArgumentNull("items"));
      return;
    }
    if pred.Null? {
      r := Threw(ArgumentNull("predicate"));
      return;
    }
    var s, p := items.value, pred.value;
    var retVal := 0;
    while retVal < |s|
      invariant 0 <= retVal <= |s|
      invariant probed == s[..retVal]
      invariant forall j :: 0 <= j < retVal ==> !p(s[j])
    {
      var item := s[retVal];
      probed := probed + [item];
      if p(item) {
        FirstMatchIsLeast(s, p, retVal);
        r := Returned(retVal);
        return;
      }
      retVal := retVal + 1;
    }
    NotFoundIffNoMatch(s, p);
    r := Returned(-1);
  }

  // ---------------------------------------------------------------------------
  // FindIndex(items, value, comparer = null)
  // ---------------------------------------------------------------------------

  /** `comparer ?? EqualityComparer<T>.Default`: a null comparer means `==`. */
  function ResolveComparer<T(==)>(comparer: Nullable<(T, T) -> bool>): (eq: (T, T) -> bool)
    ensures comparer.NonNull? ==> eq == comparer.value
  {
    match comparer
    case Null => (x: T, y: T) => x == y
    case NonNull(c) => c
  }

  /** The test the scan applies to each item: `comparer.Equals(value, item)`, value first. */
  function EqualsValue<T>(eq: (T, T) -> bool, value: T): (p: T -> bool)
  {
    item => eq(value, item)
  }

  /**
   * The scan of `FindIndex(items, value, comparer)` once the comparer is
   * resolved to the total function `eq`; any element type is allowed. The
   * ghost `probed` lists, in order, the items compared with `value`.
   */
  method FindIndexWith<T>(items: Nullable<seq<T>>, value: T, eq: (T, T) -> bool)
    returns (r: Outcome<int>, ghost probed: seq<T>)
    ensures items.Null? ==> r == Threw(ArgumentNull("items"))
    ensures items.NonNull? ==> r == Returned(FirstMatch(items.value, EqualsValue(eq, value)))
    ensures items.Null? ==> probed == []
    ensures items.NonNull? ==>
      probed == Scanned(items.value, FirstMatch(items.value, EqualsValue(eq, value)))
  {
    probed := [];
    if items.Null? {
      r := Threw(ArgumentNull("items"));
      return;
    }
    var s := items.value;
    ghost var p := EqualsValue(eq, value);
    var retVal := 0;
    while retVal < |s|
      invariant 0 <= retVal <= |s|
      invariant probed == s[..retVal]
      invariant forall j :: 0 <= j < retVal ==> !eq(value, s[j])
    {
      var item := s[retVal];
      probed := probed + [item];
      if eq(value, item) {
        FirstMatchIsLeast(s, p, retVal);
        r := Returned(retVal);
        return;
      }
      retVal := retVal + 1;
    }
    NotFoundIffNoMatch(s, p);
    r := Returned(-1);
  }

  /**
   * `FindIndex(items, value, comparer = null)`: the `items` null check, the
   * fallback to default equality, then the scan. The ghost `probed` lists,
   * in order, the items compared with `value`.
   */
  method FindIndexOfValue<T(==)>(items: Nullable<seq<T>>, value: T, comparer: Nullable<(T, T) -> bool>)
    returns (r: Outcome<int>, ghost probed: seq<T>)
    ensures items.Null? ==> r == Threw(ArgumentNull("items"))
    ensures items.NonNull? ==>
      r == Returned(FirstMatch(items.value, EqualsValue(ResolveComparer(comparer), value)))
    ensures items.Null? ==> probed == []
    ensures items.NonNull? ==>
      probed == Scanned(items.value, FirstMatch(items.value, EqualsValue(ResolveComparer(comparer), value)))
  {
    if items.Null? {
      r, probed := Threw(ArgumentNull("items")), [];
      return;
    }
    var eq := ResolveComparer(comparer);
    r, probed := FindIndexWith(items, value, eq);
  }

  /**
   * What the value search answers: -1 exactly when no item is comparer-equal
   * to `value`, otherwise the smallest such position.
   */
  lemma {:induction false} ValueSearchIsFirstEqual<T>(s: seq<T>, eq: (T, T) -> bool, value: T)
    ensures var k := FirstMatch(s, EqualsValue(eq, value));
      && (k == -1 <==> forall i :: 0 <= i < |s| ==> !eq(value, s[i]))
      && (k >= 0 ==> eq(value, s[k]) && forall j :: 0 <= j < k ==> !eq(value, s[j]))
  {
    NotFoundIffNoMatch(s, EqualsValue(eq, value));
    FoundIsFirst(s, EqualsValue(eq, value));
  }

  /** With no comparer, the search finds the first item equal to `value`. */
  lemma {:induction false} DefaultComparerFindsFirstEqual<T>(s: seq<T>, value: T)
    ensures var k := FirstMatch(s, EqualsValue(ResolveComparer(Null), value));
      && (k == -1 <==> value !in s)
      && (k >= 0 ==> s[k] == value && value !in s[..k])
  {
    var eq := ResolveComparer(Null);
    ValueSearchIsFirstEqual(s, eq, value);
    var k := FirstMatch(s, EqualsValue(eq, value));
    if k >= 0 {
      assert forall x :: x in s[..k] ==> exists j :: 0 <= j < k && s[j] == x;
    }
  }

  // ---------------------------------------------------------------------------
  // ForEach(items, action)
  // ---------------------------------------------------------------------------

  /**
   * The effect on the world `w` of calling `action` on each element of `s`,
   * first to last; `action` maps the world before a call to the world after it.
   */
  function Perform<W, T>(action: (W, T) -> W, w: W, s: seq<T>): (w': W)
  {
    if s == [] then w else Perform(action, action(w, s[0]), s[1..])
  }

  /** The calls on `a + b` are those on `a`, completed, then those on `b`. */
  lemma {:induction false} PerformConcat<W, T>(action: (W, T) -> W, w: W, a: seq<T>, b: seq<T>)
    ensures Perform(action, w, a + b) == Perform(action, Perform(action, w, a), b)
  {
    if a == [] {
      assert a + b == b;
    } else {
      assert (a + b)[0] == a[0] && (a + b)[1..] == a[1..] + b;
      PerformConcat(action, action(w, a[0]), a[1..], b);
    }
  }

  /** One more element means one more call, made last. */
  lemma PerformSnoc<W, T>(action: (W, T) -> W, w: W, s: seq<T>, x: T)
    ensures Perform(action, w, s + [x]) == action(Perform(action, w, s), x)
  {
    PerformConcat(action, w, s, [x]);
  }

  /** An action that logs its argument logs every element once, in order. */
  lemma {:induction false} PerformLogsInOrder<T>(log: seq<T>, s: seq<T>)
    ensures Perform((l: seq<T>, x: T) => l + [x], log, s) == log + s
    decreases s
  {
    if s != [] {
      PerformLogsInOrder(log + [s[0]], s[1..]);
      assert log + [s[0]] + s[1..] == log + s;
    }
  }

  /**
   * `ForEach(items, action)`. The source checks neither argument: `foreach`
   * over a null enumerable and a call through a null delegate both raise a
   * null-reference error, the latter only once there is an element to call
   * it on. The ghost `calls` lists the arguments of the calls of `action`.
   */
  method ForEach<W, T>(items: Nullable<seq<T>>, action: Nullable<(W, T) -> W>, world: W)
    returns (r: Outcome<()>, world': W, ghost calls: seq<T>)
    ensures items.Null? ==> r == Threw(NullReference) && world' == world
    ensures items.NonNull? && action.Null? ==>
      world' == world && r == if items.value == [] then Returned(()) else Threw(NullReference)
    ensures items.NonNull? && action.NonNull? ==>
      r == Returned(()) && world' == Perform(action.value, world, items.value)
    ensures calls == if items.NonNull? && action.NonNull? then items.value else []
  {
    world', calls := world, [];
    if items.Null? {
      r := Threw(NullReference);
      return;
    }
    var s := items.value;
    for i := 0 to |s|
      invariant calls == s[..i]
      invariant action.Null? ==> i == 0 && world' == world
      invariant action.NonNull? ==> world' == Perform(action.value, world, s[..i])
    {
      if action.Null? {
        r := Threw(NullReference);
        return;
      }
      PerformSnoc(action.value, world, s[..i], s[i]);
      assert s[..i + 1] == s[..i] + [s[i]];
      world' := action.value(world', s[i]);
      calls := calls + [s[i]];
    }
    assert s[..|s|] == s;
    r := Returned(());
  }

  // ---------------------------------------------------------------------------
  // The position counter is a 32-bit `int`
  // ---------------------------------------------------------------------------

  const Int32Modulus: int := 0x1_0000_0000

  /** Unchecked C# `int` arithmetic: `n` wrapped into [-2^31, 2^31). */
  function WrapInt32(n: int): (r: int)
    ensures -0x8000_0000 <= r < 0x8000_0000
    ensures (r - n) % Int32Modulus == 0
  {
    (n + 0x8000_0000) % Int32Modulus - 0x8000_0000
  }

  /**
   * What both `FindIndex` overloads return as written: `retVal` is an `int`
   * incremented once per non-matching element, so a match at position `k`
   * comes back as `k` wrapped to 32 bits.
   */
  function Int32FirstMatch<T>(s: seq<T>, p: T -> bool): (r: int)
    ensures -0x8000_0000 <= r < 0x8000_0000
    ensures |s| <= 0x8000_0000 ==> r == FirstMatch(s, p)
  {
    var k := FirstMatch(s, p);
    if k == -1 then -1 else WrapInt32(k)
  }

  /**
   * With 2^32 elements whose only match is the last, the wrapped counter
   * reports "not found".
   */
  lemma Int32CounterHidesLastMatch()
    ensures var s := seq(Int32Modulus, i => i == Int32Modulus - 1);
      && (exists i :: 0 <= i < |s| && s[i])
      && Int32FirstMatch(s, b => b) == -1
  {
    var s := seq(Int32Modulus, i => i == Int32Modulus - 1);
    FirstMatchIsLeast(s, b => b, Int32Modulus - 1);
    assert s[Int32Modulus - 1];
  }

  /** With 2^31 + 1 elements whose only match is the last, a negative position comes back. */
  lemma Int32CounterGoesNegative()
    ensures var s := seq(0x8000_0001, i => i == 0x8000_0000);
      && FirstMatch(s, b => b) == 0x8000_0000
      && Int32FirstMatch(s, b => b) == -0x8000_0000
  {
    var s := seq(0x8000_0001, i => i == 0x8000_0000);
    FirstMatchIsLeast(s, b => b, 0x8000_0000);
  }
}
