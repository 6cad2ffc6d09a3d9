/**
 * The shape algebra: the descriptor of a receiver type (`GeneratedType`), the shape of
 * the wrapper an operator produces from it (`ResultType`), and the renaming of generic
 * parameters used on the source side of a generated method (`SourceTypeParametersToUse`).
 */
module Shapes {
  import opened Wrappers
  import opened Catalogue

  /**
   * A receiver type's synthesis-relevant capabilities: its name, whether it is `Span<T>`
   * or `ReadOnlySpan<T>`, whether it exposes `Length` (and so an indexer and `Slice`),
   * and its generic parameter names; the last parameter is the element type.
   */
  datatype GeneratedType = GeneratedType(
    name: string,
    isSpan: bool,
    isReadOnlySpan: bool,
    hasLength: bool,
    typeParameters: seq<string>)

  /**
   * A named type as the host compiler reports it (its original definition): the
   * containing namespace or type, the name, the generic parameter names, and whether
   * it declares a `Length` property.
   */
  datatype TypeSymbol = TypeSymbol(
    container: string,
    name: string,
    typeParameters: seq<string>,
    hasLengthProperty: bool)

  /**
   * The shapes that can reach the generator: at least one type parameter, and the two
   * builtin views are the only ones flagged as views, each under its own name and
   * with a length.
   */
  ghost predicate WellFormed(t: GeneratedType) {
    && |t.typeParameters| >= 1
    && !(t.isSpan && t.isReadOnlySpan)
    && (t.isSpan ==> t.name == "Span" && t.hasLength)
    && (t.isReadOnlySpan ==> t.name == "ReadOnlySpan" && t.hasLength)
    && (t.isSpan || t.isReadOnlySpan ==> |t.typeParameters| == 1)
  }

  ghost predicate Distinct(s: seq<string>) {
    forall i, j :: 0 <= i < j < |s| ==> s[i] != s[j]
  }

  /**
   * `FromTypeSymbolReciever`, as its input/output shape: the receiver descriptor read
   * off a type symbol, given the symbols of `Span<T>` and `ReadOnlySpan<T>`.
   */
  function ReceiverShape(t: TypeSymbol, span: TypeSymbol, readOnlySpan: TypeSymbol): GeneratedType {
    GeneratedType(t.name, t == span, t == readOnlySpan, t.hasLengthProperty, t.typeParameters)
  }

  /** The `ReadOnlySpan` counterpart of a receiver (the `with` expression of `GenerateForReadOnlySpan`). */
  function AsReadOnlySpan(t: GeneratedType): GeneratedType {
    t.(name := "ReadOnlySpan", isReadOnlySpan := true, isSpan := false)
  }

  /**
   * The generic parameters of the source side of the generated method: `Select` renames
   * them (a single parameter becomes `TSource`, several are prefixed with the receiver's
   * name) so that they cannot clash with the added `TResult`; other operators keep them.
   */
  function SourceTypeParametersToUse(receiver: GeneratedType, m: Method): seq<string> {
    if m == Select then
      if |receiver.typeParameters| == 1 then ["TSource"]
      else seq(|receiver.typeParameters|, i requires 0 <= i < |receiver.typeParameters| =>
             receiver.name + receiver.typeParameters[i])
    else receiver.typeParameters
  }

  /** The shape of the wrapper produced by `m` on `receiver`; `None` for a terminal operator. */
  function ResultTypeOf(receiver: GeneratedType, m: Method): Option<GeneratedType> {
    if !ProducesSequence(m) then None
    else
      var slice := m == Skip || m == Take;
      var hasLength := receiver.hasLength && m != Where;
      var name :=
        if slice && hasLength then receiver.name
        else Name(m) + (if receiver.isReadOnlySpan then "Span" else receiver.name);
      var sourceParameters := SourceTypeParametersToUse(receiver, m);
      Some(GeneratedType(
        name,
        receiver.isSpan && slice,
        receiver.isReadOnlySpan && slice,
        hasLength,
        if m == Select then sourceParameters + ["TResult"] else sourceParameters))
  }

  /** Twelve operators are terminal: they have no result shape, and all others have one. */
  lemma NoResultExactlyForTerminals(receiver: GeneratedType, m: Method)
    ensures ResultTypeOf(receiver, m).None? <==>
      m in [ToList, ToArray, Count, Any, First, FirstOrDefault, Single, SingleOrDefault,
            All, Last, LastOrDefault, Contains]
  {
  }

  /** The result has a length iff the receiver has one and the operator is not `Where`. */
  lemma ResultLength(receiver: GeneratedType, m: Method)
    requires ResultTypeOf(receiver, m).Some?
    ensures ResultTypeOf(receiver, m).value.hasLength <==> receiver.hasLength && m != Where
  {
  }

  /** Only `Skip` and `Take` keep the view flags, and only those the receiver had. */
  lemma ResultViewFlags(receiver: GeneratedType, m: Method)
    requires ResultTypeOf(receiver, m).Some?
    ensures ResultTypeOf(receiver, m).value.isSpan <==> receiver.isSpan && (m == Skip || m == Take)
    ensures ResultTypeOf(receiver, m).value.isReadOnlySpan <==>
      receiver.isReadOnlySpan && (m == Skip || m == Take)
  {
  }

  /** Slicing a receiver with a known length yields the receiver's own shape. */
  lemma SliceKeepsReceiverShape(receiver: GeneratedType, m: Method)
    requires m == Skip || m == Take
    requires receiver.hasLength
    ensures ResultTypeOf(receiver, m) == Some(receiver)
  {
  }

  /**
   * Every other result is a new wrapper named after the operator and either `Span`
   * (for a `ReadOnlySpan` receiver) or the receiver; its name differs from the
   * receiver's and it is not a view.
   */
  lemma WrapperNaming(receiver: GeneratedType, m: Method)
    requires WellFormed(receiver)
    requires ProducesSequence(m)
    requires !((m == Skip || m == Take) && receiver.hasLength)
    ensures ResultTypeOf(receiver, m).Some?
    ensures ResultTypeOf(receiver, m).value.name ==
      Name(m) + (if receiver.isReadOnlySpan then "Span" else receiver.name)
    ensures ResultTypeOf(receiver, m).value.name != receiver.name
    ensures !ResultTypeOf(receiver, m).value.isSpan && !ResultTypeOf(receiver, m).value.isReadOnlySpan
  {
    var r := ResultTypeOf(receiver, m).value;
    if receiver.isReadOnlySpan {
      assert |r.name| == |Name(m)| + 4 < |"ReadOnlySpan"|;
    } else {
      assert |r.name| == |Name(m)| + |receiver.name| > |receiver.name|;
    }
  }

  /**
   * `Span<T>` and `ReadOnlySpan<T>` receivers with equal type parameters get identical
   * result shapes for every operator except the in-place slices `Skip` and `Take`.
   */
  lemma SpanAndReadOnlySpanShareResult(span: GeneratedType, m: Method)
    requires WellFormed(span) && span.isSpan
    requires m != Skip && m != Take
    ensures ResultTypeOf(span, m) == ResultTypeOf(AsReadOnlySpan(span), m)
  {
  }

  /**
   * Result type parameters are the source-side parameters, followed by `TResult` for
   * `Select`; the last one is the element type of the result.
   */
  lemma ResultTypeParameters(receiver: GeneratedType, m: Method)
    requires ResultTypeOf(receiver, m).Some?
    ensures m == Select ==>
      && ResultTypeOf(receiver, m).value.typeParameters == SourceTypeParametersToUse(receiver, m) + ["TResult"]
      && ResultTypeOf(receiver, m).value.typeParameters[|receiver.typeParameters|] == "TResult"
    ensures m != Select ==> ResultTypeOf(receiver, m).value.typeParameters == receiver.typeParameters
  {
  }

  /**
   * The renaming rule: for `Select` a one-parameter receiver uses `TSource` and an
   * n-parameter receiver n parameters, each the receiver's name followed by the
   * original; other operators use the receiver's parameters unchanged.
   */
  lemma SourceTypeParametersRenaming(receiver: GeneratedType, m: Method)
    ensures |SourceTypeParametersToUse(receiver, m)| == |receiver.typeParameters|
    ensures m == Select && |receiver.typeParameters| == 1 ==> SourceTypeParametersToUse(receiver, m) == ["TSource"]
    ensures m == Select && |receiver.typeParameters| != 1 ==>
      forall i :: 0 <= i < |receiver.typeParameters| ==>
        SourceTypeParametersToUse(receiver, m)[i] == receiver.name + receiver.typeParameters[i]
    ensures m != Select ==> SourceTypeParametersToUse(receiver, m) == receiver.typeParameters
  {
  }

  /**
   * The renaming does its job: when the receiver's parameters are distinct and its name
   * is not a prefix of `TResult`, the parameters of a `Select` result are distinct.
   */
  lemma {:induction false} SelectParametersDistinct(receiver: GeneratedType)
    requires Distinct(receiver.typeParameters)
    requires !(receiver.name <= "TResult")
    requires ResultTypeOf(receiver, Select).Some?
    ensures Distinct(ResultTypeOf(receiver, Select).value.typeParameters)
  {
    var n, ps := receiver.name, receiver.typeParameters;
    var src := SourceTypeParametersToUse(receiver, Select);
    var all := src + ["TResult"];
    assert ResultTypeOf(receiver, Select).value.typeParameters == all;
    if |ps| == 1 {
      assert all == ["TSource", "TResult"];
      assert "TSource"[1] != "TResult"[1];
    } else {
      forall i, j | 0 <= i < j < |all| ensures all[i] != all[j] {
        if j < |src| {
          PrefixCancels(n, ps[i], ps[j]);
        } else {
          PrefixedDiffers(n, ps[i], "TResult");
        }
      }
    }
  }

  lemma PrefixCancels(n: string, a: string, b: string)
    ensures n + a == n + b ==> a == b
  {
    assert (n + a)[|n|..] == a && (n + b)[|n|..] == b;
  }

  lemma PrefixedDiffers(n: string, a: string, t: string)
    requires !(n <= t)
    ensures n + a != t
  {
    assert (n + a)[..|n|] == n;
  }

  /** Every result shape of a well-formed receiver is well-formed again. */
  lemma ResultPreservesWellFormed(receiver: GeneratedType, m: Method)
    requires WellFormed(receiver)
    requires ResultTypeOf(receiver, m).Some?
    ensures WellFormed(ResultTypeOf(receiver, m).value)
  {
    if !((m == Skip || m == Take) && receiver.hasLength) {
      WrapperNaming(receiver, m);
    }
  }

  /**
   * The shapes of the generator's golden outputs: `Select` on `ReadOnlySpan<T>` gives
   * `SelectSpan<TSource, TResult>`, `Select` on that gives
   * `SelectSelectSpan<SelectSpanTSource, SelectSpanTResult, TResult>`, and `Select` on
   * `WhereSpan<T>` gives `SelectWhereSpan<TSource, TResult>`.
   */
  lemma GoldenShapes()
    ensures var ros := GeneratedType("ReadOnlySpan", false, true, true, ["T"]);
      && ResultTypeOf(ros, Select) == Some(GeneratedType("SelectSpan", false, false, true, ["TSource", "TResult"]))
      && ResultTypeOf(ros, Where) == Some(GeneratedType("WhereSpan", false, false, false, ["T"]))
    ensures ResultTypeOf(GeneratedType("SelectSpan", false, false, true, ["TSource", "TResult"]), Select)
      == Some(GeneratedType("SelectSelectSpan", false, false, true,
                            ["SelectSpanTSource", "SelectSpanTResult", "TResult"]))
    ensures ResultTypeOf(GeneratedType("WhereSpan", false, false, false, ["T"]), Select)
      == Some(GeneratedType("SelectWhereSpan", false, false, false, ["TSource", "TResult"]))
  {
    var ros := GeneratedType("ReadOnlySpan", false, true, true, ["T"]);
    assert SourceTypeParametersToUse(ros, Select) == ["TSource"];
    assert "Select" + "Span" == "SelectSpan";
    assert ["TSource"] + ["TResult"] == ["TSource", "TResult"];
    assert "Where" + "Span" == "WhereSpan";
    assert "Select" + "SelectSpan" == "SelectSelectSpan";
    assert "Select" + "WhereSpan" == "SelectWhereSpan";
    assert "SelectSpan" + "TSource" == "SelectSpanTSource";
    assert "SelectSpan" + "TResult" == "SelectSpanTResult";
    var sel := GeneratedType("SelectSpan", false, false, true, ["TSource", "TResult"]);
    assert SourceTypeParametersToUse(sel, Select) == ["SelectSpanTSource", "SelectSpanTResult"];
    assert ["SelectSpanTSource", "SelectSpanTResult"] + ["TResult"]
        == ["SelectSpanTSource", "SelectSpanTResult", "TResult"];
  }

  /**
   * A `MethodTogenerate`: a receiver shape and an operator, with the lazily computed
   * result shape cached in `resultType` after the first read.
   */
  class MethodToGenerate {
    const receiverType: GeneratedType
    const op: Method
    var resultType: Option<GeneratedType>

    /** A filled cache holds the result shape of this receiver and operator. */
    ghost predicate Valid()
      reads this
    {
      resultType.Some? ==> resultType == ResultTypeOf(receiverType, op)
    }

    constructor (receiverType: GeneratedType, op: Method)
      ensures Valid()
      ensures this.receiverType == receiverType && this.op == op && resultType == None
    {
      this.receiverType := receiverType;
      this.op := op;
      resultType := None;
    }

    /** A record `with` expression: a copy with another receiver, cache included. */
    constructor With(source: MethodToGenerate, receiverType: GeneratedType)
      ensures this.receiverType == receiverType && op == source.op
      ensures resultType == source.resultType
    {
      this.receiverType := receiverType;
      op := source.op;
      resultType := source.resultType;
    }

    /** `FromTypeSymbolReciever`: a fresh unit for the receiver read off a type symbol. */
    static method FromTypeSymbolReceiver(t: TypeSymbol, m: Method, span: TypeSymbol, readOnlySpan: TypeSymbol)
      returns (unit: MethodToGenerate)
      ensures fresh(unit) && unit.Valid() && unit.resultType == None
      ensures unit.receiverType == ReceiverShape(t, span, readOnlySpan) && unit.op == m
    {
      unit := new MethodToGenerate(ReceiverShape(t, span, readOnlySpan), m);
    }

    /** What the `ResultType` getter answers: the cached shape, or else the computed one. */
    ghost function Memo(): Option<GeneratedType>
      reads this
    {
      if resultType.Some? then resultType else ResultTypeOf(receiverType, op)
    }

    /**
     * The `ResultType` getter: returns the cached shape when there is one, otherwise
     * computes it and caches it; a terminal operator's `None` leaves the cache empty.
     */
    method ResultType() returns (r: Option<GeneratedType>)
      modifies this
      ensures r == old(Memo()) && resultType == r && Memo() == old(Memo())
      ensures old(Valid()) ==> Valid() && r == ResultTypeOf(receiverType, op)
    {
      if resultType.Some? {
        return resultType;
      }
      if !ProducesSequence(op) {
        return None;
      }
      resultType := ResultTypeOf(receiverType, op);
      r := resultType;
    }

    /**
     * `methodToGenerate with { RecieverType = ... ReadOnlySpan ... }`: the copy carries the
     * cache along, which stays correct because a `Span` receiver and its `ReadOnlySpan`
     * counterpart have the same result shape for the operators that forward.
     */
    method WithReadOnlySpanReceiver() returns (copy: MethodToGenerate)
      ensures fresh(copy)
      ensures copy.receiverType == AsReadOnlySpan(receiverType) && copy.op == op
      ensures copy.resultType == resultType
      ensures Valid() && WellFormed(receiverType) && receiverType.isSpan && op != Skip && op != Take
        ==> copy.Valid()
    {
      copy := new MethodToGenerate.With(this, AsReadOnlySpan(receiverType));
      if Valid() && WellFormed(receiverType) && receiverType.isSpan && op != Skip && op != Take {
        SpanAndReadOnlySpanShareResult(receiverType, op);
      }
    }
  }
}
