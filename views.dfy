/**
 * The members a generated wrapper offers when its receiver has a length:
 * `Length`, the indexer and the internal `Slice`, for `Select` and `Reverse`;
 * and the eager `Take` and `Skip`, which narrow a receiver with a length
 * instead of wrapping it.  A receiver is represented by the sequence of
 * elements it enumerates: for a span its contents, for a wrapper the
 * sequence its own view describes.
 */
module Views {
  import opened Sequences

  /** The `Select` wrapper over a receiver with a length. */
  class SelectView<S, R> {
    /** The receiver's elements; `Slice` narrows them in place. */
    var source: seq<S>
    const selector: S -> R

    /** What enumerating the wrapper yields. */
    ghost function Elements(): seq<R>
      reads this
    {
      Map(selector, source)
    }

    constructor (source: seq<S>, selector: S -> R)
      ensures this.source == source && this.selector == selector
      ensures Elements() == Map(selector, source)
    {
      this.source := source;
      this.selector := selector;
    }

    /** `Length` forwards to the receiver's length. */
    function Length(): (n: nat)
      reads this
      ensures n == |Elements()|
    {
      |source|
    }

    /** The indexer applies the selector to the receiver's element. */
    function Get(i: int): (r: R)
      reads this
      requires 0 <= i < Length()
      ensures r == Elements()[i]
    {
      selector(source[i])
    }

    /** `Slice` narrows the receiver to `length` elements from `start`. */
    method Slice(start: int, length: int)
      requires 0 <= start && 0 <= length && start + length <= Length()
      modifies this
      ensures source == old(source)[start..start + length]
      ensures Elements() == old(Elements())[start..start + length]
    {
      source := source[start..start + length];
    }
  }

  /** The `Reverse` wrapper over a receiver with a length. */
  class ReverseView<T> {
    /** The receiver's elements, in the receiver's order. */
    var source: seq<T>

    ghost function Elements(): seq<T>
      reads this
    {
      Reversed(source)
    }

    constructor (source: seq<T>)
      ensures this.source == source
      ensures Elements() == Reversed(source)
    {
      this.source := source;
    }

    function Length(): (n: nat)
      reads this
      ensures n == |Elements()|
    {
      |source|
    }

    /** The indexer counts from the receiver's end. */
    function Get(i: int): (r: T)
      reads this
      requires 0 <= i < Length()
      ensures r == Elements()[i]
    {
      source[|source| - i - 1]
    }

    /**
     * `Slice` takes the mirror image of the requested window from the
     * receiver, so that the reversed view is narrowed to that window.
     */
    method Slice(start: int, length: int)
      requires 0 <= start && 0 <= length && start + length <= Length()
      modifies this
      ensures source == old(source)[|old(source)| - start - length..|old(source)| - start]
      ensures Elements() == old(Elements())[start..start + length]
    {
      ghost var before := source;
      source := source[|source| - start - length..|source| - start];
      MirrorWindow(before, start, length);
    }
  }

  /** Reversing a window of a sequence gives the mirrored window of its reversal. */
  lemma MirrorWindow<T>(s: seq<T>, start: nat, length: nat)
    requires start + length <= |s|
    ensures Reversed(s[|s| - start - length..|s| - start]) == Reversed(s)[start..start + length]
  {
    var w := s[|s| - start - length..|s| - start];
    var rw := Reversed(w);
    var rs := Reversed(s);
    assert |rw| == length;
    forall i | 0 <= i < length
      ensures rw[i] == rs[start + i]
    {
      assert rw[i] == w[length - 1 - i];
      assert w[length - 1 - i] == s[|s| - start - 1 - i];
      assert rs[start + i] == s[|s| - 1 - (start + i)];
    }
    assert rw == rs[start..start + length];
  }

  /**
   * The eager `Take` on a receiver with a length: it slices to the first
   * `max(0, count)` elements when `count` is below the length, and returns
   * the receiver unchanged otherwise.
   */
  function TakeEager<T>(source: seq<T>, count: int): (r: seq<T>)
    requires IsInt32(count)
    ensures r == Take(source, count)
  {
    if count < |source| then source[..if count < 0 then 0 else count] else source
  }

  /**
   * The eager `Skip` on a receiver with a length: unchanged for a count of
   * zero or less, the tail past `count` for a count below the length, and
   * an empty slice otherwise.
   */
  function SkipEager<T>(source: seq<T>, count: int): (r: seq<T>)
    requires IsInt32(count)
    ensures r == Skip(source, count)
  {
    if count <= 0 then source
    else if count < |source| then source[count..count + (|source| - count)]
    else source[0..0]
  }

  /** The eager `Take` applied to a `Select` wrapper keeps the first elements of its enumeration. */
  method TakeSelectView<S, R>(view: SelectView<S, R>, count: int)
    requires IsInt32(count)
    modifies view
    ensures view.Elements() == Take(old(view.Elements()), count)
  {
    if count < view.Length() {
      view.Slice(0, if count < 0 then 0 else count);
    }
  }

  /** The eager `Skip` applied to a `Reverse` wrapper drops the first elements of its enumeration. */
  method SkipReverseView<T>(view: ReverseView<T>, count: int)
    requires IsInt32(count)
    modifies view
    ensures view.Elements() == Skip(old(view.Elements()), count)
  {
    if count <= 0 {
    } else if count < view.Length() {
      view.Slice(count, view.Length() - count);
    } else {
      view.Slice(0, 0);
    }
  }
}
