/**
 * The LINQ meaning of every operator the generator emits, as functions over the
 * sequence of elements a receiver enumerates.  The generated enumerators, views and
 * terminal operators are proved against these.
 */
module Sequences {
  import opened Wrappers

  /** The three exceptions the generated `ThrowHelper` raises. */
  datatype Failure = NoElements | NoMatch | MoreThanOneElement

  const MinInt32: int := -0x8000_0000
  const MaxInt32: int := 0x7fff_ffff

  predicate IsInt32(x: int) {
    MinInt32 <= x <= MaxInt32
  }

  /** `Select`: each element through the selector. */
  function Map<S, R>(f: S -> R, s: seq<S>): (r: seq<R>)
    ensures |r| == |s|
    ensures forall i :: 0 <= i < |s| ==> r[i] == f(s[i])
  {
    if s == [] then [] else Map(f, s[..|s| - 1]) + [f(s[|s| - 1])]
  }

  /** `Where`: the elements that satisfy the predicate, in order. */
  function Filter<T>(p: T -> bool, s: seq<T>): (r: seq<T>)
    ensures |r| <= |s|
    ensures forall i :: 0 <= i < |r| ==> r[i] in s && p(r[i])
    ensures forall i :: 0 <= i < |s| && p(s[i]) ==> s[i] in r
  {
    if s == [] then []
    else
      var rest := Filter(p, s[..|s| - 1]);
      assert s == s[..|s| - 1] + [s[|s| - 1]];
      if p(s[|s| - 1]) then rest + [s[|s| - 1]] else rest
  }

  lemma {:induction false} MapAppend<S, R>(f: S -> R, a: seq<S>, b: seq<S>)
    ensures Map(f, a + b) == Map(f, a) + Map(f, b)
  {
  }

  lemma {:induction false} FilterAppend<T>(p: T -> bool, a: seq<T>, b: seq<T>)
    ensures Filter(p, a + b) == Filter(p, a) + Filter(p, b)
    decreases |b|
  {
    if b == [] {
      assert a + b == a;
    } else {
      var b' := b[..|b| - 1];
      assert (a + b)[..|a + b| - 1] == a + b';
      assert (a + b)[|a + b| - 1] == b[|b| - 1];
      FilterAppend(p, a, b');
    }
  }

  /** Filtering one more element of `s` extends the result by that element exactly when it passes. */
  lemma FilterStep<T>(p: T -> bool, s: seq<T>, k: nat)
    requires k < |s|
    ensures Filter(p, s[..k + 1]) == Filter(p, s[..k]) + if p(s[k]) then [s[k]] else []
  {
    assert s[..k + 1][..k] == s[..k];
  }

  /** Filtering a prefix gives a prefix of the filtered sequence. */
  lemma FilterPrefix<T>(p: T -> bool, s: seq<T>, k: nat)
    requires k <= |s|
    ensures Filter(p, s[..k]) <= Filter(p, s)
  {
    assert s == s[..k] + s[k..];
    FilterAppend(p, s[..k], s[k..]);
  }

  /** The count `Take` and `Skip` use on a source of length `n`: `count` clamped to `[0, n]`. */
  function Clamp(count: int, n: nat): (r: nat)
    ensures r <= n
    ensures 0 <= count <= n ==> r == count
  {
    if count < 0 then 0 else if count > n then n else count
  }

  /** `Take`: the first `count` elements; none for a negative count, all for a large one. */
  function Take<T>(s: seq<T>, count: int): (r: seq<T>)
    ensures |r| == Clamp(count, |s|)
    ensures r <= s
  {
    s[..Clamp(count, |s|)]
  }

  /** `Skip`: all but the first `count` elements; all for a negative count, none for a large one. */
  function Skip<T>(s: seq<T>, count: int): (r: seq<T>)
    ensures |r| == |s| - Clamp(count, |s|)
  {
    s[Clamp(count, |s|)..]
  }

  /** `Take` and `Skip` with the same count split the source. */
  lemma TakeSkipSplit<T>(s: seq<T>, count: int)
    ensures Take(s, count) + Skip(s, count) == s
    ensures count <= 0 ==> Take(s, count) == [] && Skip(s, count) == s
    ensures count >= |s| ==> Take(s, count) == s && Skip(s, count) == []
  {
    assert s[..Clamp(count, |s|)] + s[Clamp(count, |s|)..] == s;
  }

  /** Skipping at least the whole of a prefix leaves nothing. */
  lemma SkipPrefixEmpty<T>(s: seq<T>, count: int, k: nat)
    requires k <= |s| && k <= count
    ensures Skip(s[..k], count) == []
  {
  }

  /** Once `count` elements are skipped, one more element of the source is one more element of the result. */
  lemma SkipStep<T>(s: seq<T>, count: int, k: nat)
    requires k < |s| && count <= k
    ensures Skip(s[..k + 1], count) == Skip(s[..k], count) + [s[k]]
  {
    assert s[..k + 1][Clamp(count, k + 1)..] == s[..k][Clamp(count, k)..] + [s[k]];
  }

  /** Skipping from a prefix gives a prefix of skipping from the whole. */
  lemma SkipPrefix<T>(s: seq<T>, count: int, k: nat)
    requires k <= |s|
    ensures Skip(s[..k], count) <= Skip(s, count)
  {
    var c := Clamp(count, k);
    if count <= k {
      assert Clamp(count, |s|) == c;
      assert s[..k][c..] == s[c..k];
    }
  }

  /** `Reverse`: the elements backwards. */
  function Reversed<T>(s: seq<T>): (r: seq<T>)
    ensures |r| == |s|
    ensures forall i :: 0 <= i < |s| ==> r[i] == s[|s| - 1 - i]
  {
    seq(|s|, i requires 0 <= i < |s| => s[|s| - 1 - i])
  }

  lemma ReversedTwice<T>(s: seq<T>)
    ensures Reversed(Reversed(s)) == s
  {
  }

  lemma ReversedMap<S, R>(f: S -> R, s: seq<S>)
    ensures Reversed(Map(f, s)) == Map(f, Reversed(s))
  {
  }

  /** `Any(predicate)`: some element satisfies the predicate. */
  ghost predicate Exists<T>(p: T -> bool, s: seq<T>) {
    exists i :: 0 <= i < |s| && p(s[i])
  }

  /** `All(predicate)`: every element satisfies the predicate. */
  ghost predicate ForAll<T>(p: T -> bool, s: seq<T>) {
    forall i :: 0 <= i < |s| ==> p(s[i])
  }

  /** `All` is the negation of `Any` of the negated predicate; in particular it holds on an empty source. */
  lemma AllIsNotAnyNot<T>(p: T -> bool, s: seq<T>)
    ensures ForAll(p, s) <==> !Exists(x => !p(x), s)
    ensures s == [] ==> ForAll(p, s)
  {
  }

  /** `Any` of the filtered source is `Any` with the filter's predicate. */
  lemma AnyAfterWhere<T>(p: T -> bool, s: seq<T>)
    ensures |Filter(p, s)| != 0 <==> Exists(p, s)
  {
    if |Filter(p, s)| != 0 {
      var x := Filter(p, s)[0];
      assert x in s;
      var i :| 0 <= i < |s| && s[i] == x;
    }
  }

  /** The position of the first element satisfying `p`, or `|s|` when there is none. */
  function FirstIndex<T>(p: T -> bool, s: seq<T>): (r: nat)
    ensures r <= |s|
    ensures r < |s| ==> p(s[r])
    ensures forall j :: 0 <= j < r ==> !p(s[j])
  {
    if s == [] then 0
    else if p(s[0]) then 0
    else 1 + FirstIndex(p, s[1..])
  }

  /** The position of the last element satisfying `p`, or `-1` when there is none. */
  function LastIndex<T>(p: T -> bool, s: seq<T>): (r: int)
    ensures -1 <= r < |s|
    ensures r >= 0 ==> p(s[r])
    ensures forall j :: r < j < |s| ==> !p(s[j])
  {
    if s == [] then -1
    else if p(s[|s| - 1]) then |s| - 1
    else LastIndex(p, s[..|s| - 1])
  }

  /** A position before which nothing satisfies `p`, and which satisfies it if inside `s`, is the first. */
  lemma FirstIndexIs<T>(p: T -> bool, s: seq<T>, i: nat)
    requires i <= |s| && (i < |s| ==> p(s[i]))
    requires forall j :: 0 <= j < i ==> !p(s[j])
    ensures FirstIndex(p, s) == i
  {
  }

  /** A position after which nothing satisfies `p`, and which satisfies it if inside `s`, is the last. */
  lemma LastIndexIs<T>(p: T -> bool, s: seq<T>, i: int)
    requires -1 <= i < |s| && (i >= 0 ==> p(s[i]))
    requires forall j :: i < j < |s| ==> !p(s[j])
    ensures LastIndex(p, s) == i
  {
  }

  /** The first element satisfying `p`, if any. */
  function FirstWhere<T>(p: T -> bool, s: seq<T>): (r: Option<T>)
    ensures r.None? <==> !Exists(p, s)
    ensures r.Some? ==> exists i :: 0 <= i < |s| && s[i] == r.value && p(s[i]) && forall j :: 0 <= j < i ==> !p(s[j])
  {
    var i := FirstIndex(p, s);
    if i < |s| then Some(s[i]) else None
  }

  /** The last element satisfying `p`, if any. */
  function LastWhere<T>(p: T -> bool, s: seq<T>): (r: Option<T>)
    ensures r.None? <==> !Exists(p, s)
    ensures r.Some? ==> exists i :: 0 <= i < |s| && s[i] == r.value && p(s[i]) && forall j :: i < j < |s| ==> !p(s[j])
  {
    var i := LastIndex(p, s);
    if i >= 0 then Some(s[i]) else None
  }

  /** The last match among one more element is that element if it passes, the earlier last match otherwise. */
  lemma LastWhereStep<T>(p: T -> bool, s: seq<T>, k: nat)
    requires k < |s|
    ensures LastWhere(p, s[..k + 1]) == if p(s[k]) then Some(s[k]) else LastWhere(p, s[..k])
  {
    assert s[..k + 1][..k] == s[..k];
  }

  /** The last match is the first match of the reversed source. */
  lemma {:induction false} LastWhereIsFirstOfReversed<T>(p: T -> bool, s: seq<T>)
    ensures LastWhere(p, s) == FirstWhere(p, Reversed(s))
  {
    LastIndexMirrorsFirstIndex(p, s);
    var k := FirstIndex(p, Reversed(s));
    if k < |s| {
      assert Reversed(s)[k] == s[LastIndex(p, s)];
    }
  }

  lemma {:induction false} LastIndexMirrorsFirstIndex<T>(p: T -> bool, s: seq<T>)
    ensures LastIndex(p, s) == |s| - 1 - FirstIndex(p, Reversed(s))
  {
    if s != [] {
      var rs := Reversed(s);
      assert rs[0] == s[|s| - 1];
      assert rs[1..] == Reversed(s[..|s| - 1]);
      LastIndexMirrorsFirstIndex(p, s[..|s| - 1]);
    }
  }

  /** The predicate of the overloads without one. */
  function Always<T>(x: T): (r: bool) { true }

  /** `First`: the first element, or `NoElements`. */
  function First<T>(s: seq<T>): (r: Result<T, Failure>)
    ensures r.Success? <==> |s| > 0
    ensures r.Success? ==> r.value == s[0]
    ensures r.Failure? ==> r.error == NoElements
  {
    if |s| == 0 then Failure(NoElements) else Success(s[0])
  }

  /** `First(predicate)`: the first matching element, or `NoMatch`. */
  function FirstMatch<T>(p: T -> bool, s: seq<T>): (r: Result<T, Failure>)
    ensures r.Success? <==> Exists(p, s)
    ensures r.Failure? ==> r.error == NoMatch
  {
    match FirstWhere(p, s)
    case Some(x) => Success(x)
    case None => Failure(NoMatch)
  }

  /** `FirstOrDefault`, with and without a predicate: the first (matching) element or the default. */
  function FirstOrDefault<T>(p: T -> bool, s: seq<T>, default: T): (r: T)
    ensures Exists(p, s) ==> p(r) && r in s
    ensures !Exists(p, s) ==> r == default
  {
    match FirstWhere(p, s)
    case Some(x) => x
    case None => default
  }

  /** `Last`: the last element, or `NoElements`. */
  function Last<T>(s: seq<T>): (r: Result<T, Failure>)
    ensures r.Success? <==> |s| > 0
    ensures r.Success? ==> r.value == s[|s| - 1]
    ensures r.Failure? ==> r.error == NoElements
  {
    if |s| == 0 then Failure(NoElements) else Success(s[|s| - 1])
  }

  /** `Last(predicate)`: the last matching element, or `NoMatch`. */
  function LastMatch<T>(p: T -> bool, s: seq<T>): (r: Result<T, Failure>)
    ensures r.Success? <==> Exists(p, s)
    ensures r.Failure? ==> r.error == NoMatch
  {
    match LastWhere(p, s)
    case Some(x) => Success(x)
    case None => Failure(NoMatch)
  }

  /** `LastOrDefault`, with and without a predicate. */
  function LastOrDefault<T>(p: T -> bool, s: seq<T>, default: T): (r: T)
    ensures Exists(p, s) ==> p(r) && r in s
    ensures !Exists(p, s) ==> r == default
  {
    match LastWhere(p, s)
    case Some(x) => x
    case None => default
  }

  /** `Single`: the only element; `NoElements` on none, `MoreThanOneElement` on two or more. */
  function Single<T>(s: seq<T>): (r: Result<T, Failure>)
    ensures r.Success? <==> |s| == 1
    ensures r.Success? ==> r.value == s[0]
    ensures r.Failure? ==> r.error == if |s| == 0 then NoElements else MoreThanOneElement
  {
    if |s| == 0 then Failure(NoElements)
    else if |s| == 1 then Success(s[0])
    else Failure(MoreThanOneElement)
  }

  /** `SingleOrDefault`: the default on none, the only element on one, `MoreThanOneElement` otherwise. */
  function SingleOrDefault<T>(s: seq<T>, default: T): (r: Result<T, Failure>)
    ensures r.Success? <==> |s| <= 1
    ensures r.Success? ==> r.value == if |s| == 0 then default else s[0]
    ensures r.Failure? ==> r.error == MoreThanOneElement
  {
    if |s| == 0 then Success(default)
    else if |s| == 1 then Success(s[0])
    else Failure(MoreThanOneElement)
  }

  /** On a single-element source, `First`, `Last` and `Single` all return that element. */
  lemma SingleIsFirstAndLast<T>(s: seq<T>)
    requires Single(s).Success?
    ensures First(s) == Last(s) == Single(s)
  {
  }

  /** The element equality `Contains` uses: the supplied comparer, or the default one. */
  function Equals<T(==)>(comparer: Option<(T, T) -> bool>, x: T, y: T): (r: bool) {
    match comparer
    case None => x == y
    case Some(c) => c(x, y)
  }

  /** `Contains`: some element equals `value` under the comparer. */
  predicate Contains<T(==)>(s: seq<T>, value: T, comparer: Option<(T, T) -> bool>) {
    exists i :: 0 <= i < |s| && Equals(comparer, s[i], value)
  }

  /** With the default comparer, `Contains` is sequence membership. */
  lemma ContainsDefault<T>(s: seq<T>, value: T)
    ensures Contains(s, value, None) <==> value in s
  {
    if value in s {
      var i :| 0 <= i < |s| && s[i] == value;
      assert Equals(None, s[i], value);
    }
  }
}
