/**
 * The enumerators of the generated wrappers.  Each wraps the enumerator of
 * its receiver, which is modelled as `SourceEnumerator` over the elements the
 * receiver yields.  A wrapper of a wrapper is not modelled as such: that the
 * layers compose rests on the inner wrapper yielding its own `Elements()`,
 * which is argued here rather than proved.
 *
 * Every wrapper enumerator keeps the same protocol: `Produced()` is what the
 * `true` answers of `MoveNext` have yielded so far, always a prefix of
 * `Elements()`; a `true` answer appends `Current` to it, and a `false` answer
 * means it is complete.  A `foreach` over a wrapper (the loop of the `ToList`
 * template) therefore collects exactly `Elements()`.
 */
module Enumerators {
  import opened Sequences

  /** The enumerator of a receiver: it walks the receiver's elements by position. */
  class SourceEnumerator<T> {
    const items: seq<T>
    /** The position of `Current`; -1 before the first `MoveNext`. */
    var index: int

    ghost predicate Valid()
      reads this
    {
      -1 <= index < |items|
    }

    /** The elements yielded so far. */
    ghost function Consumed(): seq<T>
      reads this
      requires Valid()
    {
      items[..index + 1]
    }

    constructor (items: seq<T>)
      ensures Valid() && this.items == items && Consumed() == []
    {
      this.items := items;
      index := -1;
    }

    function Current(): (r: T)
      reads this
      requires Valid() && 0 <= index
      ensures r == Consumed()[|Consumed()| - 1]
    {
      items[index]
    }

    /** Advances to the next element, if there is one. */
    method MoveNext() returns (more: bool)
      requires Valid()
      modifies this
      ensures Valid()
      ensures more <==> old(index) + 1 < |items|
      ensures index == if more then old(index) + 1 else old(index)
      ensures !more ==> Consumed() == items
    {
      if index + 1 < |items| {
        index := index + 1;
        more := true;
      } else {
        more := false;
      }
    }
  }

  /** The `Select` wrapper's enumerator: the selector applied to each element of the receiver. */
  class SelectEnumerator<S, R(0)> {
    const selector: S -> R
    const inner: SourceEnumerator<S>
    var current: R

    ghost predicate Valid()
      reads this, inner
    {
      inner.Valid()
    }

    ghost function Elements(): seq<R>
      reads this, inner
    {
      Map(selector, inner.items)
    }

    ghost function Produced(): seq<R>
      reads this, inner
      requires Valid()
    {
      Map(selector, inner.Consumed())
    }

    constructor (items: seq<S>, selector: S -> R)
      ensures Valid() && fresh(inner) && this.selector == selector
      ensures Elements() == Map(selector, items) && Produced() == []
    {
      this.selector := selector;
      inner := new SourceEnumerator(items);
    }

    method MoveNext() returns (more: bool)
      requires Valid()
      modifies this, inner
      ensures Valid() && Elements() == old(Elements()) && Produced() <= Elements()
      ensures more ==> Produced() == old(Produced()) + [current]
      ensures !more ==> Produced() == old(Produced()) == Elements()
    {
      more := inner.MoveNext();
      if !more {
        return;
      }
      current := selector(inner.Current());
      assert inner.Consumed() == old(inner.Consumed()) + [inner.Current()];
      MapAppend(selector, old(inner.Consumed()), [inner.Current()]);
      assert inner.items == inner.Consumed() + inner.items[inner.index + 1..];
      MapAppend(selector, inner.Consumed(), inner.items[inner.index + 1..]);
    }
  }

  /** The `Where` wrapper's enumerator: it skips the receiver's elements the predicate rejects. */
  class WhereEnumerator<T> {
    const keep: T -> bool
    const inner: SourceEnumerator<T>

    ghost predicate Valid()
      reads this, inner
    {
      inner.Valid()
    }

    ghost function Elements(): seq<T>
      reads this, inner
    {
      Filter(keep, inner.items)
    }

    ghost function Produced(): seq<T>
      reads this, inner
      requires Valid()
    {
      Filter(keep, inner.Consumed())
    }

    constructor (items: seq<T>, keep: T -> bool)
      ensures Valid() && fresh(inner) && this.keep == keep
      ensures Elements() == Filter(keep, items) && Produced() == []
    {
      this.keep := keep;
      inner := new SourceEnumerator(items);
    }

    /** `Current` is the receiver's current element. */
    function Current(): T
      reads this, inner
      requires Valid() && 0 <= inner.index
    {
      inner.Current()
    }

    method MoveNext() returns (more: bool)
      requires Valid()
      modifies this, inner
      ensures Valid() && Elements() == old(Elements()) && Produced() <= Elements()
      ensures more ==> 0 <= inner.index && Produced() == old(Produced()) + [Current()]
      ensures !more ==> Produced() == old(Produced()) == Elements()
    {
      ghost var start := Produced();
      more := inner.MoveNext();
      while more
        invariant inner.Valid()
        invariant more ==> 0 <= inner.index && Filter(keep, inner.items[..inner.index]) == start
        invariant !more ==> inner.index + 1 == |inner.items| && Filter(keep, inner.items[..inner.index + 1]) == start
        decreases |inner.items| - inner.index + if more then 1 else 0
      {
        FilterStep(keep, inner.items, inner.index);
        if keep(inner.Current()) {
          FilterPrefix(keep, inner.items, inner.index + 1);
          return;
        }
        more := inner.MoveNext();
      }
      assert inner.items[..inner.index + 1] == inner.items;
    }
  }

  /** The `Skip` wrapper's enumerator: it consumes `count` elements before yielding any. */
  class SkipEnumerator<T> {
    const inner: SourceEnumerator<T>
    /** The count the wrapper was created with. */
    ghost const count: int
    var remaining: int

    ghost predicate Valid()
      reads this, inner
    {
      inner.Valid() &&
      (count <= 0 ==> remaining == count) &&
      (count > 0 ==> remaining == if count - |inner.Consumed()| > 0 then count - |inner.Consumed()| else 0)
    }

    ghost function Elements(): seq<T>
      reads this, inner
    {
      Skip(inner.items, count)
    }

    ghost function Produced(): seq<T>
      reads this, inner
      requires Valid()
    {
      Skip(inner.Consumed(), count)
    }

    constructor (items: seq<T>, count: int)
      ensures Valid() && fresh(inner) && this.count == count
      ensures Elements() == Skip(items, count) && Produced() == []
    {
      this.count := count;
      remaining := count;
      inner := new SourceEnumerator(items);
    }

    function Current(): T
      reads this, inner
      requires Valid() && 0 <= inner.index
    {
      inner.Current()
    }

    method MoveNext() returns (more: bool)
      requires Valid()
      modifies this, inner
      ensures Valid() && Elements() == old(Elements()) && Produced() <= Elements()
      ensures more ==> 0 <= inner.index && Produced() == old(Produced()) + [Current()]
      ensures !more ==> Produced() == old(Produced()) == Elements()
    {
      ghost var start := Produced();
      while remaining > 0
        invariant Valid() && Produced() == start
        decreases remaining
      {
        ghost var k := inner.index + 1;
        more := inner.MoveNext();
        if !more {
          return;
        }
        remaining := remaining - 1;
        SkipPrefixEmpty(inner.items, count, k);
        SkipPrefixEmpty(inner.items, count, k + 1);
      }
      ghost var k := inner.index + 1;
      more := inner.MoveNext();
      if more {
        SkipStep(inner.items, count, k);
      }
      SkipPrefix(inner.items, count, inner.index + 1);
    }
  }

  /** `int` decrement with the two's-complement wrap-around of unchecked C# arithmetic. */
  function Decrement32(x: int): (r: int)
    requires IsInt32(x)
    ensures IsInt32(r)
    ensures x != MinInt32 ==> r == x - 1
    ensures x == MinInt32 ==> r == MaxInt32
  {
    if x == MinInt32 then MaxInt32 else x - 1
  }

  /**
   * The lazy `Take` wrapper's enumerator as generated: every `MoveNext`
   * decrements `remaining`, then yields the receiver's next element while
   * `remaining` is not negative.
   */
  class TakeEnumerator<T> {
    const inner: SourceEnumerator<T>
    var remaining: int

    ghost predicate Valid()
      reads this, inner
    {
      inner.Valid() && IsInt32(remaining)
    }

    constructor (items: seq<T>, count: int)
      requires IsInt32(count)
      ensures Valid() && fresh(inner) && inner.items == items && inner.Consumed() == []
      ensures remaining == count
    {
      remaining := count;
      inner := new SourceEnumerator(items);
    }

    function Current(): T
      reads this, inner
      requires Valid() && 0 <= inner.index
    {
      inner.Current()
    }

    method MoveNext() returns (more: bool)
      requires Valid()
      modifies this, inner
      ensures Valid()
      ensures remaining == Decrement32(old(remaining))
      ensures more <==> 0 <= remaining && old(inner.index) + 1 < |inner.items|
      ensures inner.index == if more then old(inner.index) + 1 else old(inner.index)
      ensures 0 <= remaining && !more ==> inner.Consumed() == inner.items
    {
      remaining := Decrement32(remaining);
      if remaining < 0 {
        return false;
      }
      more := inner.MoveNext();
    }
  }

  /**
   * How many elements the generated lazy `Take` yields from `n` elements:
   * one more than `count` decremented with wrap-around, clamped to `n`.
   */
  function LazyTakeLength(count: int, n: nat): (r: nat)
    requires IsInt32(count)
    ensures r <= n
  {
    Clamp(Decrement32(count) + 1, n)
  }

  /**
   * The lazy `Take` as generated agrees with `Take` for every count except
   * `int.MinValue`, for which it yields the whole receiver.
   */
  lemma LazyTakeLengthCases(count: int, n: nat)
    requires IsInt32(count) && n <= MaxInt32
    ensures count != MinInt32 ==> LazyTakeLength(count, n) == Clamp(count, n)
    ensures count == MinInt32 ==> LazyTakeLength(count, n) == n
  {
  }

  /**
   * The lazy `Take` as its template evidently intends it: once `remaining`
   * reaches zero it answers `false` without decrementing further.
   */
  class CheckedTakeEnumerator<T> {
    const inner: SourceEnumerator<T>
    ghost const count: int
    var remaining: int

    ghost predicate Valid()
      reads this, inner
    {
      inner.Valid() &&
      (count <= 0 ==> remaining == count && inner.Consumed() == []) &&
      (count > 0 ==>
        0 <= remaining && |inner.Consumed()| + remaining <= count &&
        (|inner.Consumed()| + remaining == count || inner.Consumed() == inner.items))
    }

    ghost function Elements(): seq<T>
      reads this, inner
    {
      Take(inner.items, count)
    }

    ghost function Produced(): seq<T>
      reads this, inner
      requires Valid()
    {
      inner.Consumed()
    }

    constructor (items: seq<T>, count: int)
      ensures Valid() && fresh(inner) && this.count == count
      ensures Elements() == Take(items, count) && Produced() == []
    {
      this.count := count;
      remaining := count;
      inner := new SourceEnumerator(items);
    }

    function Current(): T
      reads this, inner
      requires Valid() && 0 <= inner.index
    {
      inner.Current()
    }

    method MoveNext() returns (more: bool)
      requires Valid()
      modifies this, inner
      ensures Valid() && Elements() == old(Elements()) && Produced() <= Elements()
      ensures more ==> 0 <= inner.index && Produced() == old(Produced()) + [Current()]
      ensures !more ==> Produced() == old(Produced()) == Elements()
    {
      if remaining <= 0 {
        return false;
      }
      remaining := remaining - 1;
      more := inner.MoveNext();
    }
  }

  /**
   * The `Reverse` wrapper's enumerator.  With a receiver that has a length it
   * reads the receiver by position from the end; otherwise it first copies
   * the receiver's elements into a list and reads that from the end.
   */
  class ReverseEnumerator<T(0)> {
    /** The receiver itself, or the list copy of its elements. */
    var source: seq<T>
    var index: int
    var current: T

    ghost predicate Valid()
      reads this
    {
      -1 <= index < |source|
    }

    ghost function Elements(): seq<T>
      reads this
    {
      Reversed(source)
    }

    ghost function Produced(): seq<T>
      reads this
      requires Valid()
    {
      Reversed(source)[..|source| - 1 - index]
    }

    /** The enumerator over a receiver with a length. */
    constructor Indexed(items: seq<T>)
      ensures Valid() && source == items && index == |items| - 1
      ensures Elements() == Reversed(items) && Produced() == []
    {
      source := items;
      index := |items| - 1;
    }

    /** The enumerator over a receiver without a length: a `foreach` copies it first. */
    constructor Buffered(items: seq<T>)
      ensures Valid() && source == items && index == |items| - 1
      ensures Elements() == Reversed(items) && Produced() == []
    {
      var e := new SourceEnumerator(items);
      var list := [];
      var more := e.MoveNext();
      while more
        invariant e.Valid() && e.items == items
        invariant more ==> 0 <= e.index && list + [e.Current()] == e.Consumed()
        invariant !more ==> list == items
        decreases |items| - |list|
      {
        list := list + [e.Current()];
        more := e.MoveNext();
      }
      source := list;
      index := |list| - 1;
    }

    method MoveNext() returns (more: bool)
      requires Valid()
      modifies this
      ensures Valid() && source == old(source) && Produced() <= Elements()
      ensures more ==> Produced() == old(Produced()) + [current]
      ensures !more ==> Produced() == old(Produced()) == Elements()
    {
      if index < 0 {
        return false;
      }
      current := source[index];
      index := index - 1;
      return true;
    }
  }

  /** A `foreach` over a `Select` wrapper yields each receiver element through the selector. */
  method ToListOfSelect<S, R(0)>(items: seq<S>, selector: S -> R) returns (list: seq<R>)
    ensures list == Map(selector, items)
  {
    var e := new SelectEnumerator(items, selector);
    list := [];
    var more := e.MoveNext();
    while more
      invariant fresh(e) && fresh(e.inner) && e.Valid() && e.Elements() == Map(selector, items)
      invariant more ==> list + [e.current] == e.Produced()
      invariant !more ==> list == e.Elements()
      decreases |e.Elements()| - |list|
    {
      list := list + [e.current];
      more := e.MoveNext();
    }
  }

  /** A `foreach` over a `Where` wrapper yields the receiver elements the predicate keeps. */
  method ToListOfWhere<T>(items: seq<T>, keep: T -> bool) returns (list: seq<T>)
    ensures list == Filter(keep, items)
  {
    var e := new WhereEnumerator(items, keep);
    list := [];
    var more := e.MoveNext();
    while more
      invariant fresh(e) && fresh(e.inner) && e.Valid() && e.Elements() == Filter(keep, items)
      invariant more ==> 0 <= e.inner.index && list + [e.Current()] == e.Produced()
      invariant !more ==> list == e.Elements()
      decreases |e.Elements()| - |list|
    {
      list := list + [e.Current()];
      more := e.MoveNext();
    }
  }

  /** A `foreach` over a lazy `Skip` wrapper yields the receiver elements past `count`. */
  method ToListOfSkip<T>(items: seq<T>, count: int) returns (list: seq<T>)
    ensures list == Skip(items, count)
  {
    var e := new SkipEnumerator(items, count);
    list := [];
    var more := e.MoveNext();
    while more
      invariant fresh(e) && fresh(e.inner) && e.Valid() && e.Elements() == Skip(items, count)
      invariant more ==> 0 <= e.inner.index && list + [e.Current()] == e.Produced()
      invariant !more ==> list == e.Elements()
      decreases |e.Elements()| - |list|
    {
      list := list + [e.Current()];
      more := e.MoveNext();
    }
  }

  /**
   * A `foreach` over the lazy `Take` wrapper as generated, on a receiver of
   * at most `int.MaxValue` elements.
   */
  method ToListOfTake<T>(items: seq<T>, count: int) returns (list: seq<T>)
    requires IsInt32(count) && |items| <= MaxInt32
    ensures list == items[..LazyTakeLength(count, |items|)]
  {
    var e := new TakeEnumerator(items, count);
    list := [];
    var more := e.MoveNext();
    while more
      invariant fresh(e) && fresh(e.inner) && e.Valid() && e.inner.items == items
      invariant e.remaining == Decrement32(count) - |list|
      invariant more ==> 0 <= e.remaining
      invariant e.remaining < -1 ==> list == []
      invariant more ==> 0 <= e.inner.index && list + [e.Current()] == e.inner.Consumed()
      invariant !more ==> list == e.inner.Consumed() && (0 <= e.remaining ==> list == items)
      decreases |items| - |list|
    {
      list := list + [e.Current()];
      more := e.MoveNext();
    }
  }

  /**
   * On a non-empty receiver, the lazy `Take(int.MinValue)` as generated
   * yields every element, where the eager one and LINQ yield none.
   */
  lemma TakeMinValueYieldsAll<T>(items: seq<T>)
    requires 0 < |items| <= MaxInt32
    ensures items[..LazyTakeLength(MinInt32, |items|)] == items
    ensures Take(items, MinInt32) == [] != items
  {
    LazyTakeLengthCases(MinInt32, |items|);
  }

  /** A `foreach` over the corrected lazy `Take` wrapper yields the first `count` elements. */
  method ToListOfCheckedTake<T>(items: seq<T>, count: int) returns (list: seq<T>)
    ensures list == Take(items, count)
  {
    var e := new CheckedTakeEnumerator(items, count);
    list := [];
    var more := e.MoveNext();
    while more
      invariant fresh(e) && fresh(e.inner) && e.Valid() && e.Elements() == Take(items, count)
      invariant more ==> 0 <= e.inner.index && list + [e.Current()] == e.Produced()
      invariant !more ==> list == e.Elements()
      decreases |e.Elements()| - |list|
    {
      list := list + [e.Current()];
      more := e.MoveNext();
    }
  }

  /**
   * A `foreach` over a `Reverse` wrapper yields the receiver backwards,
   * whether the enumerator reads the receiver by position or copies it first.
   */
  method ToListOfReverse<T(0)>(items: seq<T>, hasLength: bool) returns (list: seq<T>)
    ensures list == Reversed(items)
  {
    var e;
    if hasLength {
      e := new ReverseEnumerator.Indexed(items);
    } else {
      e := new ReverseEnumerator.Buffered(items);
    }
    list := [];
    var more := e.MoveNext();
    while more
      invariant fresh(e) && e.Valid() && e.Elements() == Reversed(items)
      invariant more ==> list + [e.current] == e.Produced()
      invariant !more ==> list == e.Elements()
      decreases |e.Elements()| - |list|
    {
      list := list + [e.current];
      more := e.MoveNext();
    }
  }
}
