/**
 * The terminal operators the generator emits for a receiver.  Each template
 * either uses the receiver's `Length` and indexer, when the receiver has a
 * length, or walks the receiver's enumerator with `foreach`.  The receiver is
 * represented by the elements it yields (its `Length` is their number and its
 * indexer their positions), and its enumerator by `SourceEnumerator`; every
 * variant is proved equal to the LINQ meaning in `Sequences`, so the
 * by-length and by-enumeration variants of an operator always agree.
 * Exceptions the generated `ThrowHelper` raises are `Failure` results.
 */
module Terminals {
  import opened Wrappers
  import Sequences
  import opened Enumerators

  /** `ToList`: a `foreach` adding every element to a new list. */
  method ToList<T>(items: seq<T>) returns (list: seq<T>)
    ensures list == items
  {
    var e := new SourceEnumerator(items);
    list := [];
    var more := e.MoveNext();
    while more
      invariant fresh(e) && e.Valid() && e.items == items
      invariant more ==> 0 <= e.index && list == items[..e.index]
      invariant !more ==> list == items
      decreases |items| - e.index + if more then 1 else 0
    {
      list := list + [e.Current()];
      more := e.MoveNext();
    }
  }

  /** `ToArray` on a receiver with a length: an array of that length filled by a `foreach`. */
  method ToArrayByLength<T(0)>(items: seq<T>) returns (arr: array<T>)
    ensures fresh(arr) && arr[..] == items
  {
    arr := new T[|items|];
    var i := 0;
    var e := new SourceEnumerator(items);
    var more := e.MoveNext();
    while more
      invariant fresh(e) && e.Valid() && e.items == items
      invariant more ==> 0 <= e.index && i == e.index
      invariant !more ==> i == |items|
      invariant arr[..i] == items[..i]
      decreases |items| - e.index + if more then 1 else 0
    {
      arr[i] := e.Current();
      i := i + 1;
      more := e.MoveNext();
    }
    assert arr[..] == arr[..i];
  }

  /** `ToArray` on a receiver without a length: a list filled by a `foreach`, then copied. */
  method ToArrayByList<T>(items: seq<T>) returns (arr: array<T>)
    ensures fresh(arr) && arr[..] == items
  {
    var list := ToList(items);
    arr := new T[|list|](i requires 0 <= i < |list| => list[i]);
  }

  /** `Count` on a receiver without a length: one increment per element of a `foreach`. */
  method CountByTraversal<T>(items: seq<T>) returns (count: int)
    ensures count == |items|
  {
    count := 0;
    var e := new SourceEnumerator(items);
    var more := e.MoveNext();
    while more
      invariant fresh(e) && e.Valid() && e.items == items
      invariant more ==> 0 <= e.index && count == e.index
      invariant !more ==> count == |items|
      decreases |items| - e.index + if more then 1 else 0
    {
      count := count + 1;
      more := e.MoveNext();
    }
  }

  /** `Any` on a receiver without a length: true on the first element a `foreach` reaches. */
  method AnyByStep<T>(items: seq<T>) returns (r: bool)
    ensures r <==> |items| != 0
  {
    var e := new SourceEnumerator(items);
    var more := e.MoveNext();
    if more {
      return true;
    }
    return false;
  }

  /** `Any(predicate)`: true on the first element that satisfies the predicate. */
  method AnyMatch<T>(items: seq<T>, p: T -> bool) returns (r: bool)
    ensures r == Sequences.Exists(p, items)
  {
    var e := new SourceEnumerator(items);
    var more := e.MoveNext();
    while more
      invariant fresh(e) && e.Valid() && e.items == items
      invariant more ==> 0 <= e.index && forall j :: 0 <= j < e.index ==> !p(items[j])
      invariant !more ==> forall j :: 0 <= j < |items| ==> !p(items[j])
      decreases |items| - e.index + if more then 1 else 0
    {
      if p(e.Current()) {
        return true;
      }
      more := e.MoveNext();
    }
    return false;
  }

  /** `All(predicate)`: false on the first element that fails the predicate. */
  method All<T>(items: seq<T>, p: T -> bool) returns (r: bool)
    ensures r == Sequences.ForAll(p, items)
  {
    var e := new SourceEnumerator(items);
    var more := e.MoveNext();
    while more
      invariant fresh(e) && e.Valid() && e.items == items
      invariant more ==> 0 <= e.index && forall j :: 0 <= j < e.index ==> p(items[j])
      invariant !more ==> forall j :: 0 <= j < |items| ==> p(items[j])
      decreases |items| - e.index + if more then 1 else 0
    {
      if !p(e.Current()) {
        return false;
      }
      more := e.MoveNext();
    }
    return true;
  }

  /**
   * The first element a `foreach` reaches that satisfies `p`, or `None`:
   * the loop shared by `FirstOrDefault` and `First`, with and without a
   * predicate (without one, `p` is `Always`).
   */
  method FirstFound<T>(items: seq<T>, p: T -> bool) returns (r: Option<T>)
    ensures r == Sequences.FirstWhere(p, items)
  {
    var e := new SourceEnumerator(items);
    var more := e.MoveNext();
    while more
      invariant fresh(e) && e.Valid() && e.items == items
      invariant more ==> 0 <= e.index && forall j :: 0 <= j < e.index ==> !p(items[j])
      invariant !more ==> forall j :: 0 <= j < |items| ==> !p(items[j])
      decreases |items| - e.index + if more then 1 else 0
    {
      var item := e.Current();
      if p(item) {
        Sequences.FirstIndexIs(p, items, e.index);
        return Some(item);
      }
      more := e.MoveNext();
    }
    Sequences.FirstIndexIs(p, items, |items|);
    return None;
  }

  /** `FirstOrDefault`, with or without a predicate: the default when nothing matches. */
  method FirstOrDefault<T>(items: seq<T>, p: T -> bool, default: T) returns (r: T)
    ensures r == Sequences.FirstOrDefault(p, items, default)
  {
    var found := FirstFound(items, p);
    r := if found.Some? then found.value else default;
  }

  /** `First`: `NoElements` when the receiver is empty. */
  method First<T>(items: seq<T>) returns (r: Result<T, Sequences.Failure>)
    ensures r == Sequences.First(items)
  {
    var found := FirstFound(items, Sequences.Always);
    if found.None? {
      return Failure(Sequences.NoElements);
    }
    Sequences.FirstIndexIs(Sequences.Always, items, 0);
    return Success(found.value);
  }

  /** `First(predicate)`: `NoMatch` when no element satisfies the predicate. */
  method FirstMatch<T>(items: seq<T>, p: T -> bool) returns (r: Result<T, Sequences.Failure>)
    ensures r == Sequences.FirstMatch(p, items)
  {
    var found := FirstFound(items, p);
    if found.None? {
      return Failure(Sequences.NoMatch);
    }
    return Success(found.value);
  }

  /** `SingleOrDefault` on a receiver with a length: a switch on the length. */
  method SingleOrDefaultByLength<T>(items: seq<T>, default: T) returns (r: Result<T, Sequences.Failure>)
    ensures r == Sequences.SingleOrDefault(items, default)
  {
    var length := |items|;
    if length == 0 {
      return Success(default);
    } else if length == 1 {
      return Success(items[0]);
    }
    return Failure(Sequences.MoreThanOneElement);
  }

  /** `SingleOrDefault` on a receiver without a length: at most two steps of its enumerator. */
  method SingleOrDefaultByEnumerator<T>(items: seq<T>, default: T) returns (r: Result<T, Sequences.Failure>)
    ensures r == Sequences.SingleOrDefault(items, default)
  {
    var e := new SourceEnumerator(items);
    var more := e.MoveNext();
    if !more {
      return Success(default);
    }
    var result := e.Current();
    more := e.MoveNext();
    if !more {
      return Success(result);
    }
    return Failure(Sequences.MoreThanOneElement);
  }

  /** `Single` on a receiver with a length: a switch on the length. */
  method SingleByLength<T>(items: seq<T>) returns (r: Result<T, Sequences.Failure>)
    ensures r == Sequences.Single(items)
  {
    var length := |items|;
    if length == 0 {
      return Failure(Sequences.NoElements);
    } else if length == 1 {
      return Success(items[0]);
    }
    return Failure(Sequences.MoreThanOneElement);
  }

  /** `Single` on a receiver without a length: at most two steps of its enumerator. */
  method SingleByEnumerator<T>(items: seq<T>) returns (r: Result<T, Sequences.Failure>)
    ensures r == Sequences.Single(items)
  {
    var e := new SourceEnumerator(items);
    var more := e.MoveNext();
    if !more {
      return Failure(Sequences.NoElements);
    }
    var result := e.Current();
    more := e.MoveNext();
    if !more {
      return Success(result);
    }
    return Failure(Sequences.MoreThanOneElement);
  }

  /**
   * The last element satisfying `p`, by position from the end of a receiver
   * with a length, or `None`: the loop of `LastOrDefault(predicate)` and
   * `Last(predicate)` on such a receiver.
   */
  method LastFoundByLength<T>(items: seq<T>, p: T -> bool) returns (r: Option<T>)
    ensures r == Sequences.LastWhere(p, items)
  {
    var i := |items| - 1;
    while i >= 0
      invariant -1 <= i < |items|
      invariant forall j :: i < j < |items| ==> !p(items[j])
    {
      var item := items[i];
      if p(item) {
        Sequences.LastIndexIs(p, items, i);
        return Some(item);
      }
      i := i - 1;
    }
    Sequences.LastIndexIs(p, items, -1);
    return None;
  }

  /**
   * The last element satisfying `p` that a `foreach` meets, or `None`: the
   * loop of `LastOrDefault` and `Last`, with and without a predicate, on a
   * receiver without a length.  `found` is the flag of the `Last` template.
   */
  method LastFoundByTraversal<T>(items: seq<T>, p: T -> bool) returns (r: Option<T>)
    ensures r == Sequences.LastWhere(p, items)
  {
    var last: Option<T> := None;
    var found := false;
    var e := new SourceEnumerator(items);
    var more := e.MoveNext();
    while more
      invariant fresh(e) && e.Valid() && e.items == items
      invariant more ==> 0 <= e.index && last == Sequences.LastWhere(p, items[..e.index])
      invariant !more ==> last == Sequences.LastWhere(p, items[..|items|])
      invariant found <==> last.Some?
      decreases |items| - e.index + if more then 1 else 0
    {
      var item := e.Current();
      Sequences.LastWhereStep(p, items, e.index);
      if p(item) {
        last := Some(item);
        found := true;
      }
      more := e.MoveNext();
    }
    assert items[..|items|] == items;
    return last;
  }

  /** `LastOrDefault` on a receiver with a length and no predicate: the element at `Length - 1`. */
  method LastOrDefaultByLength<T>(items: seq<T>, default: T) returns (r: T)
    ensures r == Sequences.LastOrDefault(Sequences.Always, items, default)
  {
    var length := |items|;
    if length == 0 {
      return default;
    }
    Sequences.LastIndexIs(Sequences.Always, items, length - 1);
    return items[length - 1];
  }

  /** `LastOrDefault`, with or without a predicate, by either strategy. */
  method LastOrDefault<T>(items: seq<T>, p: T -> bool, default: T, hasLength: bool) returns (r: T)
    ensures r == Sequences.LastOrDefault(p, items, default)
  {
    var found;
    if hasLength {
      found := LastFoundByLength(items, p);
    } else {
      found := LastFoundByTraversal(items, p);
    }
    r := if found.Some? then found.value else default;
  }

  /** `Last` on a receiver with a length and no predicate: `NoElements` when the length is zero. */
  method LastByLength<T>(items: seq<T>) returns (r: Result<T, Sequences.Failure>)
    ensures r == Sequences.Last(items)
  {
    var length := |items|;
    if length == 0 {
      return Failure(Sequences.NoElements);
    }
    return Success(items[length - 1]);
  }

  /** `Last` on a receiver without a length: `NoElements` when the `foreach` found nothing. */
  method LastByTraversal<T>(items: seq<T>) returns (r: Result<T, Sequences.Failure>)
    ensures r == Sequences.Last(items)
  {
    var found := LastFoundByTraversal(items, Sequences.Always);
    if found.None? {
      return Failure(Sequences.NoElements);
    }
    Sequences.LastIndexIs(Sequences.Always, items, |items| - 1);
    return Success(found.value);
  }

  /** `Last(predicate)` by either strategy: `NoMatch` when no element satisfies the predicate. */
  method LastMatch<T>(items: seq<T>, p: T -> bool, hasLength: bool) returns (r: Result<T, Sequences.Failure>)
    ensures r == Sequences.LastMatch(p, items)
  {
    var found;
    if hasLength {
      found := LastFoundByLength(items, p);
    } else {
      found := LastFoundByTraversal(items, p);
    }
    if found.None? {
      return Failure(Sequences.NoMatch);
    }
    return Success(found.value);
  }

  /**
   * `Contains(value, comparer)`: a `foreach` comparing with the default
   * equality when no comparer is given, and with the comparer otherwise.
   */
  method Contains<T(==)>(items: seq<T>, value: T, comparer: Option<(T, T) -> bool>) returns (r: bool)
    ensures r == Sequences.Contains(items, value, comparer)
  {
    var e := new SourceEnumerator(items);
    var more := e.MoveNext();
    if comparer.None? {
      while more
        invariant fresh(e) && e.Valid() && e.items == items
        invariant more ==> 0 <= e.index && forall j :: 0 <= j < e.index ==> items[j] != value
        invariant !more ==> forall j :: 0 <= j < |items| ==> items[j] != value
        decreases |items| - e.index + if more then 1 else 0
      {
        if e.Current() == value {
          return true;
        }
        more := e.MoveNext();
      }
    } else {
      while more
        invariant fresh(e) && e.Valid() && e.items == items
        invariant more ==> 0 <= e.index && forall j :: 0 <= j < e.index ==> !comparer.value(items[j], value)
        invariant !more ==> forall j :: 0 <= j < |items| ==> !comparer.value(items[j], value)
        decreases |items| - e.index + if more then 1 else 0
      {
        if comparer.value(e.Current(), value) {
          return true;
        }
        more := e.MoveNext();
      }
    }
    return false;
  }
}
