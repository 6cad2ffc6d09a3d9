/**
 * The generator's entry point: the rounds of `Execute`.  Each round tries every
 * pending member access (`TryGenerate`), keeps those that produced no result shape,
 * and recompiles the user's code together with everything generated so far, until a
 * round makes no progress or nothing is left.  The host compiler is a `Host` value
 * of oracle functions.
 */
module Driver {
  import opened Wrappers
  import opened Catalogue
  import opened Shapes
  import opened Scanner
  import opened Synthesis

  /** A compilation: the user's own, or the user's plus the generated declarations. */
  datatype Compilation = Original | WithSpanLinq(decls: seq<Decl>)

  /**
   * The host compiler's answers: the symbols of `System.Span<T>` and
   * `System.ReadOnlySpan<T>` (when the compilation defines them), whether a member
   * access binds to an existing method, and the static type (original definition)
   * of an expression.
   */
  datatype Host = Host(
    span: Option<TypeSymbol>,
    readOnlySpan: Option<TypeSymbol>,
    binds: (Compilation, Syntax) -> bool,
    staticType: (Compilation, Syntax) -> Option<TypeSymbol>)

  /** What one round works against: the host, the current compilation, and the two view types. */
  datatype Pass = Pass(host: Host, compilation: Compilation, span: TypeSymbol, readOnlySpan: TypeSymbol)

  const GeneratedContainer := "System.Linq.SpanLinq"

  /** The type symbol the host reports for a generated wrapper type. */
  function TypeSymbolOf(shape: GeneratedType): (t: TypeSymbol) {
    TypeSymbol(GeneratedContainer, shape.name, shape.typeParameters, shape.hasLength)
  }

  /** The types declared inside the generated `System.Linq.SpanLinq` class. */
  function OurTypes(comp: Compilation): (types: set<TypeSymbol>) {
    match comp
    case Original => {}
    case WithSpanLinq(decls) => set d | d in decls && d.Wrapper? :: TypeSymbolOf(d.shape)
  }

  /** The receiver types worth generating for: `Span<T>`, `ReadOnlySpan<T>` and our own wrappers. */
  predicate Tracked(pass: Pass, t: TypeSymbol) {
    t == pass.span || t == pass.readOnlySpan || t in OurTypes(pass.compilation)
  }

  /**
   * `TryGenerate`: the result shape of the member access, generating what it needs, or
   * `None` when the name is not an operator, the access already binds, or the receiver
   * is neither a tracked type nor a chain the generator can follow; a chain whose
   * receiver is a view type is deferred to the next round.
   */
  function TryGenerateSpec(pass: Pass, st: SynthState, syntax: MemberAccessSyntax): (r: (SynthState, Option<GeneratedType>))
    ensures st.doc <= r.0.doc && st.generated <= r.0.generated
    ensures Lookup(syntax.memberName).None? || pass.host.binds(pass.compilation, syntax) ==> r == (st, None)
    ensures r.1.Some? ==> ProducesSequence(Lookup(syntax.memberName).value)
    decreases syntax
  {
    match Lookup(syntax.memberName)
    case None => (st, None)
    case Some(m) =>
      if pass.host.binds(pass.compilation, syntax) then (st, None)
      else
        var t := pass.host.staticType(pass.compilation, syntax.expression);
        if t.Some? && Tracked(pass, t.value) then
          var receiver := ReceiverShape(t.value, pass.span, pass.readOnlySpan);
          NoResultExactlyForTerminals(receiver, m);
          (GenerateSpec(st, receiver, m, ResultTypeOf(receiver, m)), ResultTypeOf(receiver, m))
        else if syntax.expression.Invocation? && syntax.expression.expression.MemberAccess? then
          var inner := TryGenerateSpec(pass, st, syntax.expression.expression);
          if inner.1.None? || inner.1.value.isReadOnlySpan || inner.1.value.isSpan then (inner.0, None)
          else
            var receiver := inner.1.value;
            NoResultExactlyForTerminals(receiver, m);
            (GenerateSpec(inner.0, receiver, m, ResultTypeOf(receiver, m)), ResultTypeOf(receiver, m))
        else (st, None)
  }

  /**
   * One round: the pending accesses tried in order, each against the output left by the
   * ones before it; the ones without a result shape are kept, in order.
   */
  function RoundSpec(pass: Pass, st: SynthState, pending: seq<MemberAccessSyntax>): (r: (SynthState, seq<MemberAccessSyntax>))
    ensures |r.1| <= |pending|
    ensures forall s :: s in r.1 ==> s in pending
    ensures st.doc <= r.0.doc && st.generated <= r.0.generated
  {
    if pending == [] then (st, [])
    else
      var n := |pending| - 1;
      var before := RoundSpec(pass, st, pending[..n]);
      var tried := TryGenerateSpec(pass, before.0, pending[n]);
      (tried.0, before.1 + (if tried.1.None? then [pending[n]] else []))
  }

  /** The rounds of `Execute`, from a compilation and an output, over the pending accesses. */
  function LoopSpec(host: Host, span: TypeSymbol, readOnlySpan: TypeSymbol, comp: Compilation,
                    st: SynthState, pending: seq<MemberAccessSyntax>): (r: SynthState)
    ensures st.doc <= r.doc && st.generated <= r.generated
    decreases |pending|
  {
    if pending == [] then st
    else
      var round := RoundSpec(Pass(host, comp, span, readOnlySpan), st, pending);
      if |round.1| == |pending| || |round.1| == 0 then round.0
      else LoopSpec(host, span, readOnlySpan, WithSpanLinq(round.0.doc), round.0, round.1)
  }

  /**
   * `Execute`: nothing when either view type is missing; otherwise the rounds run from the
   * user's compilation and an empty output, and the declarations are added as one source
   * file when there are any.
   */
  function ExecuteSpec(host: Host, toInvestigate: seq<MemberAccessSyntax>): (added: Option<seq<Decl>>) {
    if host.span.None? || host.readOnlySpan.None? then None
    else
      var st := LoopSpec(host, host.span.value, host.readOnlySpan.value, Original, Empty, toInvestigate);
      if st.doc == [] then None else Some(st.doc)
  }

  // ---------------------------------------------------------------------------------
  // The invariant of the rounds

  /** The host's view types are the two builtin ones: named `Span` and `ReadOnlySpan` in `System`, one type parameter, a length. */
  ghost predicate HostWellFormed(span: TypeSymbol, readOnlySpan: TypeSymbol) {
    && span.container == "System" && span.name == "Span"
    && |span.typeParameters| == 1 && span.hasLengthProperty
    && readOnlySpan.container == "System" && readOnlySpan.name == "ReadOnlySpan"
    && |readOnlySpan.typeParameters| == 1 && readOnlySpan.hasLengthProperty
  }

  ghost predicate ShapesWellFormed(doc: seq<Decl>) {
    forall d :: d in doc && d.Wrapper? ==> WellFormed(d.shape)
  }

  ghost predicate CompilationWellFormed(comp: Compilation) {
    comp.WithSpanLinq? ==> ShapesWellFormed(comp.decls)
  }

  ghost predicate PassWellFormed(pass: Pass) {
    HostWellFormed(pass.span, pass.readOnlySpan) && CompilationWellFormed(pass.compilation)
  }

  /** What every round keeps about the output: consistent, forwards resolved, wrapper shapes well formed. */
  ghost predicate Invariant(st: SynthState) {
    Consistent(st) && ForwardsResolved(st.doc) && ShapesWellFormed(st.doc)
  }

  lemma TrackedReceiverWellFormed(pass: Pass, t: TypeSymbol)
    requires PassWellFormed(pass) && Tracked(pass, t)
    ensures WellFormed(ReceiverShape(t, pass.span, pass.readOnlySpan))
  {
    if t != pass.span && t != pass.readOnlySpan {
      var d :| d in pass.compilation.decls && d.Wrapper? && TypeSymbolOf(d.shape) == t;
    }
  }

  lemma GenerateWrapperShapes(st: SynthState, receiver: GeneratedType, m: Method, result: Option<GeneratedType>)
    ensures forall d :: d in GenerateSpec(st, receiver, m, result).doc && d.Wrapper? ==>
      d in st.doc || (result.Some? && d.shape == result.value)
  {
    var key := (receiver.name, m);
    if key !in st.generated && receiver.isSpan && Cascades(m) {
      var ros := AsReadOnlySpan(receiver);
      var st1 := st.(generated := st.generated + {key});
      if (ros.name, m) !in st1.generated {
        assert GenerateSpec(st1, ros, m, result).doc == st.doc + Emit(ros, m, result);
      }
    }
  }

  /** `Generate` on a well-formed receiver with its own result shape keeps the invariant. */
  lemma GenerateKeepsInvariant(st: SynthState, receiver: GeneratedType, m: Method)
    requires Invariant(st) && WellFormed(receiver)
    ensures Invariant(GenerateSpec(st, receiver, m, ResultTypeOf(receiver, m)))
  {
    var result := ResultTypeOf(receiver, m);
    GeneratePreservesConsistency(st, receiver, m, result);
    GenerateResolvesForwards(st, receiver, m, result);
    GenerateWrapperShapes(st, receiver, m, result);
    if result.Some? {
      ResultPreservesWellFormed(receiver, m);
    }
  }

  /** `TryGenerate` keeps the invariant, and the shape it returns is well formed. */
  lemma {:induction false} TryGenerateKeepsInvariant(pass: Pass, st: SynthState, syntax: MemberAccessSyntax)
    requires PassWellFormed(pass) && Invariant(st)
    ensures Invariant(TryGenerateSpec(pass, st, syntax).0)
    ensures TryGenerateSpec(pass, st, syntax).1.Some? ==> WellFormed(TryGenerateSpec(pass, st, syntax).1.value)
    decreases syntax
  {
    match Lookup(syntax.memberName)
    case None =>
    case Some(m) =>
      if !pass.host.binds(pass.compilation, syntax) {
        var t := pass.host.staticType(pass.compilation, syntax.expression);
        if t.Some? && Tracked(pass, t.value) {
          var receiver := ReceiverShape(t.value, pass.span, pass.readOnlySpan);
          TrackedReceiverWellFormed(pass, t.value);
          GenerateKeepsInvariant(st, receiver, m);
          if ResultTypeOf(receiver, m).Some? {
            ResultPreservesWellFormed(receiver, m);
          }
        } else if syntax.expression.Invocation? && syntax.expression.expression.MemberAccess? {
          var inner := TryGenerateSpec(pass, st, syntax.expression.expression);
          TryGenerateKeepsInvariant(pass, st, syntax.expression.expression);
          if inner.1.Some? && !inner.1.value.isReadOnlySpan && !inner.1.value.isSpan {
            GenerateKeepsInvariant(inner.0, inner.1.value, m);
            if ResultTypeOf(inner.1.value, m).Some? {
              ResultPreservesWellFormed(inner.1.value, m);
            }
          }
        }
      }
  }

  lemma {:induction false} RoundKeepsInvariant(pass: Pass, st: SynthState, pending: seq<MemberAccessSyntax>)
    requires PassWellFormed(pass) && Invariant(st)
    ensures Invariant(RoundSpec(pass, st, pending).0)
    decreases |pending|
  {
    if pending != [] {
      var n := |pending| - 1;
      RoundKeepsInvariant(pass, st, pending[..n]);
      TryGenerateKeepsInvariant(pass, RoundSpec(pass, st, pending[..n]).0, pending[n]);
    }
  }

  lemma {:induction false} LoopKeepsInvariant(host: Host, span: TypeSymbol, readOnlySpan: TypeSymbol, comp: Compilation,
                                              st: SynthState, pending: seq<MemberAccessSyntax>)
    requires HostWellFormed(span, readOnlySpan) && CompilationWellFormed(comp) && Invariant(st)
    ensures Invariant(LoopSpec(host, span, readOnlySpan, comp, st, pending))
    decreases |pending|
  {
    if pending != [] {
      var pass := Pass(host, comp, span, readOnlySpan);
      var round := RoundSpec(pass, st, pending);
      RoundKeepsInvariant(pass, st, pending);
      if !(|round.1| == |pending| || |round.1| == 0) {
        LoopKeepsInvariant(host, span, readOnlySpan, WithSpanLinq(round.0.doc), round.0, round.1);
      }
    }
  }

  /**
   * The emitted file declares every (receiver, operator) pair once, each wrapper type
   * once, and every `Span` overload forwards to a `ReadOnlySpan` overload declared
   * before it.
   */
  lemma ExecuteOutputConsistent(host: Host, toInvestigate: seq<MemberAccessSyntax>)
    requires host.span.Some? && host.readOnlySpan.Some?
    requires HostWellFormed(host.span.value, host.readOnlySpan.value)
    ensures ExecuteSpec(host, toInvestigate).Some? ==>
      var doc := ExecuteSpec(host, toInvestigate).value;
      Unique(doc) && ForwardsResolved(doc) && ShapesWellFormed(doc)
  {
    LoopKeepsInvariant(host, host.span.value, host.readOnlySpan.value, Original, Empty, toInvestigate);
  }

  // ---------------------------------------------------------------------------------
  // What a round keeps

  /** `s` is `t` with some elements left out, order kept. */
  ghost predicate Subsequence<T>(s: seq<T>, t: seq<T>)
    decreases |t|
  {
    if t == [] then s == []
    else
      || Subsequence(s, t[..|t| - 1])
      || (s != [] && s[|s| - 1] == t[|t| - 1] && Subsequence(s[..|s| - 1], t[..|t| - 1]))
  }

  lemma SubsequenceExtend<T>(s: seq<T>, t: seq<T>, x: T, keep: bool)
    requires Subsequence(s, t)
    ensures Subsequence(s + (if keep then [x] else []), t + [x])
  {
    var t' := t + [x];
    assert t'[..|t'| - 1] == t;
    if keep {
      var s' := s + [x];
      assert s'[..|s'| - 1] == s;
    } else {
      assert s + [] == s;
    }
  }

  /**
   * A round keeps its pending accesses in their order, and every access it removes named
   * an operator that produces a sequence: terminal operators always stay pending.
   */
  lemma {:induction false} RoundKeeps(pass: Pass, st: SynthState, pending: seq<MemberAccessSyntax>)
    ensures Subsequence(RoundSpec(pass, st, pending).1, pending)
    ensures forall i :: 0 <= i < |pending| && pending[i] !in RoundSpec(pass, st, pending).1 ==>
      Lookup(pending[i].memberName).Some? && ProducesSequence(Lookup(pending[i].memberName).value)
    decreases |pending|
  {
    if pending != [] {
      var n := |pending| - 1;
      var before := RoundSpec(pass, st, pending[..n]);
      var tried := TryGenerateSpec(pass, before.0, pending[n]);
      RoundKeeps(pass, st, pending[..n]);
      SubsequenceExtend(before.1, pending[..n], pending[n], tried.1.None?);
      assert pending[..n] + [pending[n]] == pending;
      forall i | 0 <= i < |pending| && pending[i] !in RoundSpec(pass, st, pending).1
        ensures Lookup(pending[i].memberName).Some? && ProducesSequence(Lookup(pending[i].memberName).value)
      {
        if i < n {
          assert pending[..n][i] == pending[i];
        }
      }
    }
  }

  lemma {:induction false} RoundAllBound(pass: Pass, st: SynthState, pending: seq<MemberAccessSyntax>)
    requires forall s :: s in pending ==> pass.host.binds(pass.compilation, s)
    ensures RoundSpec(pass, st, pending) == (st, pending)
    decreases |pending|
  {
    if pending != [] {
      var n := |pending| - 1;
      RoundAllBound(pass, st, pending[..n]);
      assert pending[..n] + [pending[n]] == pending;
    }
  }

  /**
   * When every candidate already binds in the user's own compilation, the first round
   * keeps them all and nothing is added to the compilation.
   */
  lemma AllBoundNothingAdded(host: Host, toInvestigate: seq<MemberAccessSyntax>)
    requires forall s :: s in toInvestigate ==> host.binds(Original, s)
    ensures ExecuteSpec(host, toInvestigate) == None
  {
    if host.span.Some? && host.readOnlySpan.Some? && toInvestigate != [] {
      RoundAllBound(Pass(host, Original, host.span.value, host.readOnlySpan.value), Empty, toInvestigate);
    }
  }

  /** The round over one more pending access extends the round before it by one `TryGenerate`. */
  lemma RoundStep(pass: Pass, st: SynthState, pending: seq<MemberAccessSyntax>, i: nat)
    requires i < |pending|
    ensures RoundSpec(pass, st, pending[..i + 1]).0
         == TryGenerateSpec(pass, RoundSpec(pass, st, pending[..i]).0, pending[i]).0
    ensures RoundSpec(pass, st, pending[..i + 1]).1
         == RoundSpec(pass, st, pending[..i]).1
            + (if TryGenerateSpec(pass, RoundSpec(pass, st, pending[..i]).0, pending[i]).1.None? then [pending[i]] else [])
  {
    assert pending[..i + 1][..i] == pending[..i];
  }

  /**
   * An access whose receiver is an earlier operator call generating a type that is still
   * a `Span` or `ReadOnlySpan` (an eager `Skip` or `Take`) gets no result in this round:
   * it waits until the compilation knows that call's type.
   */
  lemma ChainOnViewDeferred(pass: Pass, st: SynthState, syntax: MemberAccessSyntax)
    requires Lookup(syntax.memberName).Some? && !pass.host.binds(pass.compilation, syntax)
    requires var t := pass.host.staticType(pass.compilation, syntax.expression);
      t.None? || !Tracked(pass, t.value)
    requires syntax.expression.Invocation? && syntax.expression.expression.MemberAccess?
    requires var inner := TryGenerateSpec(pass, st, syntax.expression.expression);
      inner.1.Some? && (inner.1.value.isSpan || inner.1.value.isReadOnlySpan)
    ensures TryGenerateSpec(pass, st, syntax).1 == None
    ensures TryGenerateSpec(pass, st, syntax).0 == TryGenerateSpec(pass, st, syntax.expression.expression).0
  {
  }

  /** No source file is added when a view type is missing, nor an empty one. */
  lemma NoEmptyOrOrphanFile(host: Host, toInvestigate: seq<MemberAccessSyntax>)
    ensures host.span.None? || host.readOnlySpan.None? ==> ExecuteSpec(host, toInvestigate) == None
    ensures ExecuteSpec(host, toInvestigate).Some? ==> ExecuteSpec(host, toInvestigate).value != []
  {
  }

  // ---------------------------------------------------------------------------------
  // A worked example: `span.Select(f).Select(g).ToList()`

  const SpanSymbol := TypeSymbol("System", "Span", ["T"], true)
  const ReadOnlySpanSymbol := TypeSymbol("System", "ReadOnlySpan", ["T"], true)

  const SpanExpr := OtherSyntax(0)
  const Select1: MemberAccessSyntax := MemberAccess(1, SpanExpr, "Select")
  const Select2: MemberAccessSyntax := MemberAccess(3, Invocation(2, Select1), "Select")
  const ToList3: MemberAccessSyntax := MemberAccess(5, Invocation(4, Select2), "ToList")

  /** Nothing binds before generation and everything binds after it; `span` is a `Span<int>`. */
  const ExampleHost := Host(Some(SpanSymbol), Some(ReadOnlySpanSymbol),
                            (c: Compilation, s: Syntax) => c.WithSpanLinq?,
                            (c: Compilation, e: Syntax) => if e == SpanExpr then Some(SpanSymbol) else None)
  const ExamplePass := Pass(ExampleHost, Original, SpanSymbol, ReadOnlySpanSymbol)

  const SelectSpanShape := GeneratedType("SelectSpan", false, false, true, ["TSource", "TResult"])
  const SelectSelectSpanShape := GeneratedType("SelectSelectSpan", false, false, true,
                                               ["SelectSpanTSource", "SelectSpanTResult", "TResult"])

  const ExampleDecls := [
    Extension(Select, "ReadOnlySpan", ["TSource"], NewWrapper, Some(SelectSpanShape)),
    Wrapper(Select, "ReadOnlySpan", SelectSpanShape, true),
    Extension(Select, "Span", ["TSource"], ForwardToReadOnlySpan, Some(SelectSpanShape)),
    Extension(Select, "SelectSpan", ["SelectSpanTSource", "SelectSpanTResult"], NewWrapper, Some(SelectSelectSpanShape)),
    Wrapper(Select, "SelectSpan", SelectSelectSpanShape, true),
    Extension(ToList, "SelectSelectSpan", ["SelectSpanTSource", "SelectSpanTResult", "TResult"], ByEnumeration, None)]

  const ExampleState := SynthState(ExampleDecls,
    {("Span", Select), ("ReadOnlySpan", Select), ("SelectSpan", Select), ("SelectSelectSpan", ToList)})

  lemma ExampleLookups()
    ensures Lookup("Select") == Some(Select) && Lookup("ToList") == Some(ToList)
  {
    LookupRoundTrip(Select, "Select");
    LookupRoundTrip(ToList, "ToList");
  }

  lemma ExampleHostAnswers()
    ensures forall s :: !ExampleHost.binds(Original, s)
    ensures forall decls, s :: ExampleHost.binds(WithSpanLinq(decls), s)
    ensures forall c :: ExampleHost.staticType(c, SpanExpr) == Some(SpanSymbol)
    ensures forall c :: ExampleHost.staticType(c, Select1.expression) == Some(SpanSymbol)
    ensures forall c :: ExampleHost.staticType(c, Select2.expression) == None
    ensures forall c :: ExampleHost.staticType(c, ToList3.expression) == None
    ensures Tracked(ExamplePass, SpanSymbol)
  {
  }

  lemma ExampleShapes()
    ensures ReceiverShape(SpanSymbol, SpanSymbol, ReadOnlySpanSymbol) == SpanShape
    ensures ResultTypeOf(SpanShape, Select) == Some(SelectSpanShape)
    ensures SourceTypeParametersToUse(SelectSpanShape, Select) == ["SelectSpanTSource", "SelectSpanTResult"]
    ensures ResultTypeOf(SelectSpanShape, Select) == Some(SelectSelectSpanShape)
    ensures ResultTypeOf(SelectSelectSpanShape, ToList) == None
  {
    assert "Select" + "Span" == "SelectSpan";
    assert ["TSource"] + ["TResult"] == ["TSource", "TResult"];
    assert "Select" + "SelectSpan" == "SelectSelectSpan";
    assert "SelectSpan" + "TSource" == "SelectSpanTSource";
    assert "SelectSpan" + "TResult" == "SelectSpanTResult";
    assert ["SelectSpanTSource", "SelectSpanTResult"] + ["TResult"] == SelectSelectSpanShape.typeParameters;
  }

  const State1 := SynthState(ExampleDecls[..3], {("Span", Select), ("ReadOnlySpan", Select)})
  const State2 := SynthState(ExampleDecls[..5], {("Span", Select), ("ReadOnlySpan", Select), ("SelectSpan", Select)})

  lemma FirstSelectResult()
    ensures TryGenerateSpec(ExamplePass, Empty, Select1).1 == Some(SelectSpanShape)
  {
    ExampleLookups(); ExampleHostAnswers(); ExampleShapes();
  }

  lemma FirstSelectOutput()
    ensures TryGenerateSpec(ExamplePass, Empty, Select1).0 == GenerateSpec(Empty, SpanShape, Select, Some(SelectSpanShape))
  {
    ExampleLookups(); ExampleHostAnswers(); ExampleShapes();
  }

  lemma SpanSelectOutput()
    ensures GenerateSpec(Empty, SpanShape, Select, Some(SelectSpanShape)) == State1
  {
    ExampleShapes();
    SelectOnSpanDeclarations();
  }

  lemma ExampleFirstSelect()
    ensures TryGenerateSpec(ExamplePass, Empty, Select1) == (State1, Some(SelectSpanShape))
  {
    FirstSelectResult();
    FirstSelectOutput();
    SpanSelectOutput();
  }

  lemma SecondSelectResult()
    ensures TryGenerateSpec(ExamplePass, Empty, Select2).1 == Some(SelectSelectSpanShape)
  {
    ExampleLookups(); ExampleHostAnswers(); ExampleShapes(); ExampleFirstSelect();
  }

  lemma SecondSelectOutput()
    ensures TryGenerateSpec(ExamplePass, Empty, Select2).0 == GenerateSpec(State1, SelectSpanShape, Select, Some(SelectSelectSpanShape))
  {
    ExampleLookups(); ExampleHostAnswers(); ExampleShapes(); ExampleFirstSelect();
  }

  lemma SelectSpanSelectOutput()
    ensures GenerateSpec(State1, SelectSpanShape, Select, Some(SelectSelectSpanShape)) == State2
  {
    ExampleShapes();
    assert ExampleDecls[..3] + ExampleDecls[3..5] == ExampleDecls[..5];
  }

  lemma ExampleSecondSelect()
    ensures TryGenerateSpec(ExamplePass, Empty, Select2) == (State2, Some(SelectSelectSpanShape))
  {
    SecondSelectResult();
    SecondSelectOutput();
    SelectSpanSelectOutput();
  }

  lemma ToListResult()
    ensures TryGenerateSpec(ExamplePass, Empty, ToList3).1 == None
  {
    ExampleLookups(); ExampleHostAnswers(); ExampleShapes(); ExampleSecondSelect();
  }

  lemma ToListOutput()
    ensures TryGenerateSpec(ExamplePass, Empty, ToList3).0 == GenerateSpec(State2, SelectSelectSpanShape, ToList, None)
  {
    ExampleLookups(); ExampleHostAnswers(); ExampleShapes(); ExampleSecondSelect();
  }

  lemma SelectSelectSpanToListOutput()
    ensures GenerateSpec(State2, SelectSelectSpanShape, ToList, None) == ExampleState
  {
    ExampleShapes();
    assert ExampleDecls[..5] + ExampleDecls[5..] == ExampleDecls;
  }

  lemma ExampleToList()
    ensures TryGenerateSpec(ExamplePass, Empty, ToList3) == (ExampleState, None)
  {
    ToListResult();
    ToListOutput();
    SelectSelectSpanToListOutput();
  }

  lemma MemoHits()
    ensures TryGenerateSpec(ExamplePass, ExampleState, Select1) == (ExampleState, Some(SelectSpanShape))
    ensures TryGenerateSpec(ExamplePass, ExampleState, Select2) == (ExampleState, Some(SelectSelectSpanShape))
  {
    ExampleLookups(); ExampleHostAnswers(); ExampleShapes();
    assert TryGenerateSpec(ExamplePass, ExampleState, Select1) == (ExampleState, Some(SelectSpanShape));
  }

  lemma RoundAfterToList()
    ensures RoundSpec(ExamplePass, Empty, [ToList3]).0 == ExampleState
    ensures RoundSpec(ExamplePass, Empty, [ToList3]).1 == [ToList3]
  {
    var p := [ToList3];
    assert p[..0] == [] && p[..1] == p;
    assert RoundSpec(ExamplePass, Empty, p[..0]) == (Empty, []);
    RoundStep(ExamplePass, Empty, p, 0);
    ExampleToList();
  }

  lemma RoundAfterSecondSelect()
    ensures RoundSpec(ExamplePass, Empty, [ToList3, Select2]).0 == ExampleState
    ensures RoundSpec(ExamplePass, Empty, [ToList3, Select2]).1 == [ToList3]
  {
    var p := [ToList3, Select2];
    assert p[..1] == [ToList3] && p[..2] == p;
    RoundAfterToList();
    RoundStep(ExamplePass, Empty, p, 1);
    MemoHits();
  }

  lemma ExampleFirstRound()
    ensures RoundSpec(ExamplePass, Empty, [ToList3, Select2, Select1]).0 == ExampleState
    ensures RoundSpec(ExamplePass, Empty, [ToList3, Select2, Select1]).1 == [ToList3]
  {
    var p := [ToList3, Select2, Select1];
    assert p[..2] == [ToList3, Select2] && p[..3] == p;
    RoundAfterSecondSelect();
    RoundStep(ExamplePass, Empty, p, 2);
    MemoHits();
  }

  lemma ExampleSecondRound()
    ensures RoundSpec(Pass(ExampleHost, WithSpanLinq(ExampleDecls), SpanSymbol, ReadOnlySpanSymbol), ExampleState, [ToList3]).0 == ExampleState
    ensures RoundSpec(Pass(ExampleHost, WithSpanLinq(ExampleDecls), SpanSymbol, ReadOnlySpanSymbol), ExampleState, [ToList3]).1 == [ToList3]
  {
    var p := [ToList3];
    var pass2 := Pass(ExampleHost, WithSpanLinq(ExampleDecls), SpanSymbol, ReadOnlySpanSymbol);
    assert p[..0] == [] && p[..1] == p;
    assert RoundSpec(pass2, ExampleState, p[..0]) == (ExampleState, []);
    RoundStep(pass2, ExampleState, p, 0);
    ExampleHostAnswers();
    ExampleLookups();
    assert TryGenerateSpec(pass2, ExampleState, ToList3) == (ExampleState, None);
  }

  lemma ExampleSecondLoop()
    ensures LoopSpec(ExampleHost, SpanSymbol, ReadOnlySpanSymbol, WithSpanLinq(ExampleDecls), ExampleState, [ToList3]) == ExampleState
  {
    ExampleSecondRound();
  }

  lemma ExampleLoop()
    ensures LoopSpec(ExampleHost, SpanSymbol, ReadOnlySpanSymbol, Original, Empty, [ToList3, Select2, Select1]) == ExampleState
  {
    ExampleFirstRound();
    ExampleSecondLoop();
  }

  /**
   * `span.Select(f).Select(g).ToList()`, with the receiver visiting the three member
   * accesses outermost first: the added file declares, in this order, the `ReadOnlySpan`
   * `Select` with its `SelectSpan` wrapper, the forwarding `Span` `Select`, the `Select`
   * on `SelectSpan` with its `SelectSelectSpan` wrapper, and `ToList` on `SelectSelectSpan`.
   */
  lemma SelectSelectToList()
    ensures ExecuteSpec(ExampleHost, [ToList3, Select2, Select1]) == Some(ExampleDecls)
  {
    ExampleLoop();
  }

  // ---------------------------------------------------------------------------------
  // The imperative generator

  /** `TryGenerate`, against the output under construction. */
  method TryGenerate(pass: Pass, output: Output, syntax: MemberAccessSyntax) returns (r: Option<GeneratedType>)
    modifies output
    ensures (output.State(), r) == TryGenerateSpec(pass, old(output.State()), syntax)
    decreases syntax
  {
    var op := Lookup(syntax.memberName);
    if op.None? {
      return None;
    }
    var m := op.value;
    if pass.host.binds(pass.compilation, syntax) {
      return None;
    }
    var t := pass.host.staticType(pass.compilation, syntax.expression);
    if t.Some? && Tracked(pass, t.value) {
      var unit := MethodToGenerate.FromTypeSymbolReceiver(t.value, m, pass.span, pass.readOnlySpan);
      output.Generate(unit);
      r := unit.ResultType();
      return;
    }
    if syntax.expression.Invocation? && syntax.expression.expression.MemberAccess? {
      var inner := TryGenerate(pass, output, syntax.expression.expression);
      if inner.Some? {
        var unit := new MethodToGenerate(inner.value, m);
        if inner.value.isReadOnlySpan || inner.value.isSpan {
          return None;
        }
        output.Generate(unit);
        r := unit.ResultType();
        return;
      }
    }
    return None;
  }

  /** One round: `toInvestigate.Where(x => TryGenerate(x) is null).ToList()`. */
  method Round(pass: Pass, output: Output, pending: seq<MemberAccessSyntax>) returns (kept: seq<MemberAccessSyntax>)
    modifies output
    ensures (output.State(), kept) == RoundSpec(pass, old(output.State()), pending)
  {
    ghost var start := output.State();
    kept := [];
    var i := 0;
    while i < |pending|
      invariant 0 <= i <= |pending|
      invariant output.State() == RoundSpec(pass, start, pending[..i]).0
      invariant kept == RoundSpec(pass, start, pending[..i]).1
    {
      ghost var before := output.State();
      var r := TryGenerate(pass, output, pending[i]);
      ghost var tried := TryGenerateSpec(pass, before, pending[i]);
      assert output.State() == tried.0 && r == tried.1;
      RoundStep(pass, start, pending, i);
      if r.None? {
        kept := kept + [pending[i]];
      }
      i := i + 1;
    }
    assert pending[..i] == pending;
  }

  /** `Execute`: the rounds, then the generated declarations as one added file, if any. */
  method Execute(host: Host, toInvestigate: seq<MemberAccessSyntax>) returns (added: Option<seq<Decl>>)
    ensures added == ExecuteSpec(host, toInvestigate)
  {
    if host.span.None? || host.readOnlySpan.None? {
      return None;
    }
    var span, readOnlySpan := host.span.value, host.readOnlySpan.value;
    var output := new Output();
    var pending := toInvestigate;
    var comp := Original;
    while |pending| > 0
      invariant LoopSpec(host, span, readOnlySpan, comp, output.State(), pending)
             == LoopSpec(host, span, readOnlySpan, Original, Empty, toInvestigate)
      decreases |pending|
    {
      var kept := Round(Pass(host, comp, span, readOnlySpan), output, pending);
      if |kept| == |pending| || |kept| == 0 {
        break;
      }
      pending := kept;
      comp := WithSpanLinq(output.doc);
    }
    if output.doc != [] {
      added := Some(output.doc);
    } else {
      added := None;
    }
  }
}
