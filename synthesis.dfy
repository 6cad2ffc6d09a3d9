/**
 * Synthesis of declarations for one (receiver type, operator) pair: the memoised
 * `Generate` and its `ReadOnlySpan` cascade.  The generated C# text is modelled as a
 * sequence of declaration records, one per extension method and one per wrapper type.
 */
module Synthesis {
  import opened Wrappers
  import opened Catalogue
  import opened Shapes

  /** How a generated extension method computes its answer. */
  datatype Strategy =
    | ForwardToReadOnlySpan   // converts the `Span` receiver and calls the `ReadOnlySpan` overload
    | NewWrapper              // constructs the wrapper type declared beside it
    | InPlaceSlice            // `Skip`/`Take` on a receiver with a length: slices it and returns it
    | ByLength                // a terminal operator answered from `Length` and the indexer
    | ByEnumeration           // a terminal operator answered by walking the enumerator

  /**
   * One generated declaration, tagged with the receiver name and operator it serves.
   * A wrapper is `indexed` when it declares `Length`, the indexer and `Slice`.
   */
  datatype Decl =
    | Extension(op: Method, receiver: string, sourceTypeParameters: seq<string>,
                strategy: Strategy, resultShape: Option<GeneratedType>)
    | Wrapper(op: Method, receiver: string, shape: GeneratedType, indexed: bool)

  /** The memo key: a receiver type name and an operator. */
  type Key = (string, Method)

  function KeyOf(d: Decl): Key {
    (d.receiver, d.op)
  }

  /** The generator's output under construction: the declarations, and the keys done. */
  datatype SynthState = SynthState(doc: seq<Decl>, generated: set<Key>)

  const Empty := SynthState([], {})

  /** The operators whose `Span` overload forwards to the `ReadOnlySpan` one. */
  predicate Cascades(m: Method) {
    m in {Select, Where, ToList, ToArray, Reverse}
  }

  /** The terminal operators with a separate template for receivers that have a length. */
  predicate UsesLength(m: Method) {
    m in {ToArray, Count, Any, SingleOrDefault, Single, LastOrDefault, Last}
  }

  /** The declarations one non-forwarding `Generate` call appends, `result` being its result shape. */
  function Emit(receiver: GeneratedType, m: Method, result: Option<GeneratedType>): (r: seq<Decl>)
    ensures 1 <= |r| <= 2
    ensures r[0].Extension? && r[0] == Extension(m, receiver.name, SourceTypeParametersToUse(receiver, m),
                                                 r[0].strategy, result)
    ensures forall i :: 0 <= i < |r| ==> KeyOf(r[i]) == (receiver.name, m)
    ensures forall i :: 1 <= i < |r| ==> r[i].Wrapper?
    ensures |r| == 2 <==> ProducesSequence(m) && !((m == Skip || m == Take) && receiver.hasLength) && result.Some?
    ensures |r| == 2 ==> r[1].shape == result.value
    ensures r[0].strategy == InPlaceSlice <==> (m == Skip || m == Take) && receiver.hasLength
    ensures r[0].strategy == ByLength <==> UsesLength(m) && receiver.hasLength
  {
    var src := SourceTypeParametersToUse(receiver, m);
    if ProducesSequence(m) then
      if (m == Skip || m == Take) && receiver.hasLength then
        [Extension(m, receiver.name, src, InPlaceSlice, result)]
      else
        [Extension(m, receiver.name, src, NewWrapper, result)]
        + (if result.Some? then [Wrapper(m, receiver.name, result.value, (m == Select || m == Reverse) && receiver.hasLength)] else [])
    else
      var strategy := if UsesLength(m) && receiver.hasLength then ByLength else ByEnumeration;
      [Extension(m, receiver.name, src, strategy, result)]
  }

  /**
   * `Generate`: nothing when the key is already done; otherwise the key is recorded and,
   * for a `Span` receiver of a forwarding operator, the `ReadOnlySpan` declarations are
   * generated first (with the same result shape, the copied cache) and a forwarding
   * extension is appended; every other pair appends its own declarations.
   */
  function GenerateSpec(st: SynthState, receiver: GeneratedType, m: Method, result: Option<GeneratedType>): (r: SynthState)
    ensures st.doc <= r.doc && st.generated <= r.generated
    ensures (receiver.name, m) in r.generated
    ensures (receiver.name, m) in st.generated ==> r == st
    decreases if receiver.isSpan then 1 else 0
  {
    var key := (receiver.name, m);
    if key in st.generated then st
    else
      var st1 := st.(generated := st.generated + {key});
      if receiver.isSpan && Cascades(m) then
        var st2 := GenerateSpec(st1, AsReadOnlySpan(receiver), m, result);
        var forward := Extension(m, receiver.name, SourceTypeParametersToUse(receiver, m),
                                 ForwardToReadOnlySpan, result);
        st2.(doc := st2.doc + [forward])
      else
        st1.(doc := st1.doc + Emit(receiver, m, result))
  }

  /** The keys that have an extension method in `doc`. */
  ghost function ExtensionKeys(doc: seq<Decl>): set<Key> {
    set d | d in doc && d.Extension? :: KeyOf(d)
  }

  /** No two declarations of the same kind (extension method, wrapper type) share a key. */
  ghost predicate Unique(doc: seq<Decl>) {
    forall i, j :: 0 <= i < j < |doc| && doc[i].Wrapper? == doc[j].Wrapper? ==> KeyOf(doc[i]) != KeyOf(doc[j])
  }

  /**
   * The output is consistent: every declaration belongs to a recorded key, every recorded
   * key has its extension method, and no key has two extension methods or two wrapper types.
   */
  ghost predicate Consistent(st: SynthState) {
    && (forall d :: d in st.doc ==> KeyOf(d) in st.generated)
    && st.generated <= ExtensionKeys(st.doc)
    && Unique(st.doc)
  }

  /** Appending the declarations of a key not yet recorded, and recording it, keeps consistency. */
  lemma AppendFresh(st: SynthState, k: Key, decls: seq<Decl>)
    requires Consistent(st) && k !in st.generated
    requires forall d :: d in decls ==> KeyOf(d) == k
    requires Unique(decls) && k in ExtensionKeys(decls)
    ensures Consistent(SynthState(st.doc + decls, st.generated + {k}))
  {
    var doc := st.doc + decls;
    forall i, j | 0 <= i < j < |doc| && doc[i].Wrapper? == doc[j].Wrapper?
      ensures KeyOf(doc[i]) != KeyOf(doc[j])
    {
      if j < |st.doc| {
        assert doc[i] == st.doc[i] && doc[j] == st.doc[j];
      } else if i < |st.doc| {
        assert doc[i] in st.doc && doc[j] in decls;
      }
    }
    assert ExtensionKeys(st.doc) <= ExtensionKeys(doc);
    var d :| d in decls && d.Extension? && KeyOf(d) == k;
    assert d in doc;
  }

  lemma EmitUnique(receiver: GeneratedType, m: Method, result: Option<GeneratedType>)
    ensures Unique(Emit(receiver, m, result))
    ensures (receiver.name, m) in ExtensionKeys(Emit(receiver, m, result))
  {
    var e := Emit(receiver, m, result);
    assert e[0] in e;
  }

  /** `Generate` keeps the output consistent: no pair is ever declared twice. */
  lemma GeneratePreservesConsistency(st: SynthState, receiver: GeneratedType, m: Method, result: Option<GeneratedType>)
    requires Consistent(st)
    ensures Consistent(GenerateSpec(st, receiver, m, result))
  {
    var key := (receiver.name, m);
    if key !in st.generated {
      if receiver.isSpan && Cascades(m) {
        var ros := AsReadOnlySpan(receiver);
        var rosKey := ("ReadOnlySpan", m);
        var forward := Extension(m, receiver.name, SourceTypeParametersToUse(receiver, m),
                                 ForwardToReadOnlySpan, result);
        assert [forward][0] == forward;
        if rosKey in st.generated + {key} {
          AppendFresh(st, key, [forward]);
        } else {
          var e := Emit(ros, m, result);
          EmitUnique(ros, m, result);
          AppendFresh(st, rosKey, e);
          var st' := SynthState(st.doc + e, st.generated + {rosKey});
          AppendFresh(st', key, [forward]);
          assert st.doc + e + [forward] == GenerateSpec(st, receiver, m, result).doc;
          assert st.generated + {rosKey} + {key} == GenerateSpec(st, receiver, m, result).generated;
        }
      } else {
        EmitUnique(receiver, m, result);
        AppendFresh(st, key, Emit(receiver, m, result));
      }
    }
  }

  /**
   * Every forwarding extension method comes after the `ReadOnlySpan` extension method
   * of the same operator that it calls.
   */
  ghost predicate ForwardsResolved(doc: seq<Decl>) {
    forall i :: 0 <= i < |doc| && doc[i].Extension? && doc[i].strategy == ForwardToReadOnlySpan ==>
      ("ReadOnlySpan", doc[i].op) in ExtensionKeys(doc[..i])
  }

  lemma AppendResolved(doc: seq<Decl>, decls: seq<Decl>)
    requires ForwardsResolved(doc)
    requires forall i :: 0 <= i < |decls| && decls[i].Extension? && decls[i].strategy == ForwardToReadOnlySpan ==>
      ("ReadOnlySpan", decls[i].op) in ExtensionKeys(doc)
    ensures ForwardsResolved(doc + decls)
  {
    var all := doc + decls;
    forall i | 0 <= i < |all| && all[i].Extension? && all[i].strategy == ForwardToReadOnlySpan
      ensures ("ReadOnlySpan", all[i].op) in ExtensionKeys(all[..i])
    {
      if i < |doc| {
        assert all[i] == doc[i] && all[..i] == doc[..i];
      } else {
        assert all[i] == decls[i - |doc|];
        assert ExtensionKeys(doc) <= ExtensionKeys(all[..i]) by {
          assert all[..i] == doc + decls[..i - |doc|];
        }
      }
    }
  }

  /** `Generate` on a well-formed receiver keeps every forwarding call resolved to an earlier declaration. */
  lemma GenerateResolvesForwards(st: SynthState, receiver: GeneratedType, m: Method, result: Option<GeneratedType>)
    requires Consistent(st) && ForwardsResolved(st.doc) && WellFormed(receiver)
    ensures ForwardsResolved(GenerateSpec(st, receiver, m, result).doc)
  {
    var key := (receiver.name, m);
    if key !in st.generated {
      if receiver.isSpan && Cascades(m) {
        var ros := AsReadOnlySpan(receiver);
        var rosKey := ("ReadOnlySpan", m);
        var forward := Extension(m, receiver.name, SourceTypeParametersToUse(receiver, m),
                                 ForwardToReadOnlySpan, result);
        if rosKey in st.generated {
          AppendResolved(st.doc, [forward]);
        } else {
          var e := Emit(ros, m, result);
          EmitUnique(ros, m, result);
          AppendResolved(st.doc, e);
          assert ExtensionKeys(e) <= ExtensionKeys(st.doc + e);
          AppendResolved(st.doc + e, [forward]);
        }
      } else {
        AppendResolved(st.doc, Emit(receiver, m, result));
      }
    }
  }

  /**
   * The generator's output under construction, as the two locals `Execute` passes to
   * `Generate` by reference: the generated declarations and the set of keys done.
   */
  class Output {
    var doc: seq<Decl>
    var generated: set<Key>

    ghost function State(): SynthState
      reads this
    {
      SynthState(doc, generated)
    }

    constructor ()
      ensures State() == Empty
    {
      doc := [];
      generated := {};
    }

    /**
     * `Generate`: reads the unit's result shape (filling its cache), records the key, and
     * appends the declarations; a `Span` receiver of a forwarding operator first generates
     * for a `ReadOnlySpan` copy of the unit that carries the same cache.
     */
    method Generate(unit: MethodToGenerate)
      modifies this, unit
      ensures State() == GenerateSpec(old(State()), unit.receiverType, unit.op, old(unit.Memo()))
      ensures unit.resultType == old(unit.Memo())
      decreases if unit.receiverType.isSpan then 1 else 0
    {
      var result := unit.ResultType();
      var m := unit.op;
      var receiver := unit.receiverType;
      var key := (receiver.name, m);
      if key in generated {
        return;
      }
      generated := generated + {key};
      if receiver.isSpan && Cascades(m) {
        var copy := unit.WithReadOnlySpanReceiver();
        assert copy.Memo() == result;
        Generate(copy);
        doc := doc + [Extension(m, receiver.name, SourceTypeParametersToUse(receiver, m),
                                ForwardToReadOnlySpan, result)];
      } else {
        doc := doc + Emit(receiver, m, result);
      }
    }
  }

  /**
   * A valid unit's result shape is what its receiver and operator determine, and the copy
   * handed to the `ReadOnlySpan` cascade receives exactly the shape it would compute itself.
   */
  lemma CascadeUsesOwnShape(receiver: GeneratedType, m: Method)
    requires WellFormed(receiver) && receiver.isSpan && Cascades(m)
    ensures ResultTypeOf(AsReadOnlySpan(receiver), m) == ResultTypeOf(receiver, m)
  {
    SpanAndReadOnlySpanShareResult(receiver, m);
  }

  /**
   * A wrapper declares `Length`, the indexer and `Slice` exactly when its
   * result shape says it has a length, so a chained operator that picks its
   * by-length template on that shape finds those members.
   */
  lemma WrapperMembersMatchShape(receiver: GeneratedType, m: Method)
    ensures var r := Emit(receiver, m, ResultTypeOf(receiver, m));
      |r| == 2 ==> r[1].indexed == r[1].shape.hasLength
  {
  }

  /** The `Span` shape of `Span<T>` as the host's type symbol yields it. */
  const SpanShape := GeneratedType("Span", true, false, true, ["T"])

  /**
   * `span.Select(...)` on a fresh output declares, in order, the `ReadOnlySpan` extension,
   * the `SelectSpan<TSource, TResult>` wrapper, and the `Span` extension forwarding to it.
   */
  lemma SelectOnSpanDeclarations()
    ensures
      var selectSpan := GeneratedType("SelectSpan", false, false, true, ["TSource", "TResult"]);
      var r := GenerateSpec(Empty, SpanShape, Select, ResultTypeOf(SpanShape, Select));
      && r.doc == [Extension(Select, "ReadOnlySpan", ["TSource"], NewWrapper, Some(selectSpan)),
                   Wrapper(Select, "ReadOnlySpan", selectSpan, true),
                   Extension(Select, "Span", ["TSource"], ForwardToReadOnlySpan, Some(selectSpan))]
      && r.generated == {("Span", Select), ("ReadOnlySpan", Select)}
  {
    assert "Select" + "Span" == "SelectSpan";
    assert ["TSource"] + ["TResult"] == ["TSource", "TResult"];
  }
}
