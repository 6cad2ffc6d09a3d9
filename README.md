# SpanLinq in Dafny

SpanLinq is a C# source generator. It gives `Span<T>` and `ReadOnlySpan<T>` LINQ-style operators (`Select`, `Where`, `Take`, `Skip`, `Reverse`, `ToList`, `Count`, `First`, `Single`, `Last`, `Contains`, …). It does not ship a library. During compilation it finds the operator calls that do not bind. For each one it writes only the extension methods and `ref struct` wrapper types that call needs. It then recompiles with what it wrote and repeats until no further call can be served.

This project models that generator and the code it emits, in ten modules:

| module | models |
|---|---|
| `Wrappers` | `Option` and `Result` |
| `Catalogue` | the `Method` enumeration and the name → member dictionary built from it |
| `Scanner` | `SyntaxReciever`, which collects every member access named after a catalogue operator |
| `Shapes` | `MethodTogenerate`: a receiver shape, an operator, and the memoised result shape (name, view flags, length, type parameters) |
| `Synthesis` | `Generate`: the memo set keyed by (receiver name, operator), the `Span` → `ReadOnlySpan` forwarding cascade, and the declarations appended for each key |
| `Driver` | `Execute`: the fixed-point loop over pending call sites against a host compilation oracle, ending in the single added file or nothing |
| `Sequences` | the LINQ meaning of each emitted operator, as functions over sequences |
| `Views` | the `Length`/indexer/`Slice` members of the `Select` and `Reverse` wrappers, and the eager `Take`/`Skip` on receivers with a length |
| `Enumerators` | the emitted enumerators (`Select`, `Where`, `Skip`, `Take`, `Reverse`) as classes whose `MoveNext` is proved against the matching sequence function, and the `foreach` that drains each one |
| `Terminals` | the emitted terminal operators as loops over an enumerator or an index, each proved equal to its sequence function |
| `Scenarios` | the integration tests' queries over `1, 2, 3, 4, 5`, with the expected answers derived from the functions above |

The generator side is proved to keep three things:
- **Memo consistency:** no key is generated twice, and every declaration in the document belongs to a generated key.
- **Forwarding resolved:** every `Span` forwarder comes after the `ReadOnlySpan` extension it calls.
- **Well-formed shapes:** every wrapper shape has at least one type parameter, and only `Span`/`ReadOnlySpan` shapes with a length and one type parameter carry a view flag.

The driver is proved to add a file only when something was generated. The golden `SelectSelectFollowedByToList` output order is derived.

On the runtime side, a wrapper's receiver is represented by the sequence of elements it enumerates. Each enumerator, wrapped around an enumerator of that sequence, is proved to yield the LINQ result over it: `Map`, `Filter`, `Skip`, `Take`, `Reversed`. Nesting is argued, not proved: the proofs take the inner enumerator to be a plain walk over the receiver's elements, never another generated wrapper (see Left out).

Facts about the code that the model follows:
- **Forwarding:** only `Select`, `Where`, `ToList`, `ToArray` and `Reverse` forward a `Span<T>` receiver to the `ReadOnlySpan<T>` overload (SpanLinq/SourceGenerator.cs:154, 230, 296, 324, 884). `Take` and `Skip` on `Span<T>` slice in place and return `Span<T>` (SpanLinq/MethodToGenerate.cs:27-28).
- **Type-parameter renaming:** only `Select` renames source type parameters. A one-parameter receiver becomes `TSource`; a receiver with more parameters gets each one prefixed with its name (SpanLinq/MethodToGenerate.cs:50-56).
- **View flags:** `Take` and `Skip` keep the span and read-only-span flags whenever the receiver carries them, without testing its length (SpanLinq/MethodToGenerate.cs:27-28). Every shape with a flag has a length, so on reachable shapes this is the same as keeping them for receivers with a length.
- **The operator catalogue:** the `Method` enumeration has 17 members and no `ToDictionary` (SpanLinq/Method.cs:4-23). A `ToDictionary` call is therefore never collected, and its template (SpanLinq/SourceGenerator.cs:363-396) is never selected.
- **Lazy `Take`:** the enumerator decrements `remaining` before testing it, with 32-bit wrap-around (SpanLinq/SourceGenerator.cs:451-452; see Findings).

## Model

| member | source | states |
|---|---|---|
| Catalogue.ToDictionary | SpanLinq/SourceGenerator.cs:18 | building the name dictionary from a member list succeeds exactly when the names are distinct; its keys are the names, and each name maps back to its member |
| Catalogue.NameInjective | SpanLinq/Method.cs:4-23 | two members with the same `ToString()` name are the same member |
| Catalogue.CatalogueWellDefined | SpanLinq/Method.cs:4-23 | the enumeration has 17 members in declaration order; their names are distinct, so the generator's static dictionary is built without a duplicate-key failure |
| Catalogue.LookupRoundTrip | SpanLinq/SourceGenerator.cs:18 | looking up a member's name gives that member, and a name gives a member only if it is that member's name |
| Catalogue.NoToDictionary | SpanLinq/Method.cs:4-23 | `ToDictionary` is not a catalogue name, so its template is never selected |
| Scanner.Investigated | SpanLinq/SyntaxReciever.cs:29-32 | the collected nodes are exactly the visited member accesses whose member name is a dictionary key, and there are no more of them than visited nodes |
| Scanner.InvestigatedAppend | SpanLinq/SyntaxReciever.cs:22-33 | collection distributes over visit order: visiting `a` then `b` collects `a`'s candidates followed by `b`'s |
| Scanner.CatalogueCandidates | SpanLinq/SyntaxReciever.cs:29 | with the generator's dictionary, every collected access names a catalogue operator and never `ToDictionary` |
| Scanner.SyntaxReceiver.constructor | SpanLinq/SyntaxReciever.cs:15-18 | a new receiver holds the given dictionary and has collected nothing |
| Scanner.SyntaxReceiver.OnVisitSyntaxNode | SpanLinq/SyntaxReciever.cs:22-33 | a visit keeps the first parse options seen and appends the node to the candidates exactly when it is a member access with a catalogue name |
| Shapes.NoResultExactlyForTerminals | SpanLinq/MethodToGenerate.cs:22-25 | an operator has no result shape exactly when it does not produce a sequence |
| Shapes.ResultLength | SpanLinq/MethodToGenerate.cs:29 | a result shape has a length exactly when the receiver has one and the operator is not `Where` |
| Shapes.ResultViewFlags | SpanLinq/MethodToGenerate.cs:27-28 | a result keeps the span and read-only-span flags exactly when the receiver has them and the operator is `Skip` or `Take` |
| Shapes.SliceKeepsReceiverShape | SpanLinq/MethodToGenerate.cs:27-32 | `Skip` and `Take` on a receiver with a length return the receiver's own shape |
| Shapes.WrapperNaming | SpanLinq/MethodToGenerate.cs:30-32 | every new wrapper is named operator + receiver name, with `Span` in place of `ReadOnlySpan`; the name differs from the receiver's, and the wrapper is not a span |
| Shapes.SpanAndReadOnlySpanShareResult | SpanLinq/MethodToGenerate.cs:30-43 | except for `Skip`/`Take`, `Span<T>` and `ReadOnlySpan<T>` give the same result shape, which the forwarding overload relies on |
| Shapes.ResultTypeParameters | SpanLinq/MethodToGenerate.cs:39-43 | `Select` results take the renamed source parameters plus `TResult`; every other result keeps the receiver's parameters |
| Shapes.SourceTypeParametersRenaming | SpanLinq/MethodToGenerate.cs:50-56 | `Select` renames a one-parameter receiver to `TSource` and prefixes each parameter with the receiver name otherwise; other operators keep the parameters |
| Shapes.SelectParametersDistinct | SpanLinq/MethodToGenerate.cs:50-56 | renaming never makes two `Select` result parameters collide, including with the added `TResult` |
| Shapes.ResultPreservesWellFormed | SpanLinq/MethodToGenerate.cs:34-44 | a result shape of a well-formed receiver is well formed: at least one type parameter, at most one view flag, and a view flag only on a `Span`/`ReadOnlySpan` shape with a length and one type parameter |
| Shapes.GoldenShapes | SpanLinq.Tests.Unit/GeneratorTests.cs:106 | `Select` over `ReadOnlySpan` is `SelectSpan<TSource, TResult>`; `Select` over that is `SelectSelectSpan<SelectSpanTSource, SelectSpanTResult, TResult>`; `Select` over `WhereSpan<T>` is `SelectWhereSpan<TSource, TResult>` |
| Shapes.MethodToGenerate.constructor | SpanLinq/MethodToGenerate.cs:9 | a new unit holds its receiver and operator with an empty cache |
| Shapes.MethodToGenerate.With | SpanLinq/SourceGenerator.cs:1005-1013 | a `with` copy changes the receiver, keeping the operator and the cached result |
| Shapes.MethodToGenerate.FromTypeSymbolReceiver | SpanLinq/MethodToGenerate.cs:58-69 | a unit built from a type symbol has the shape of that symbol (span flags from comparison with `Span<>`/`ReadOnlySpan<>`, its name and type arguments) and an empty cache |
| Shapes.MethodToGenerate.ResultType | SpanLinq/MethodToGenerate.cs:13-47 | the first read computes and caches the result shape and later reads return the cache; on a valid unit the answer is the shape rule's result |
| Shapes.MethodToGenerate.WithReadOnlySpanReceiver | SpanLinq/SourceGenerator.cs:1003-1014 | the read-only copy of a `Span` unit has the `ReadOnlySpan` receiver and the copied cache, which stays valid because both receivers give the same result |
| Synthesis.Emit | SpanLinq/SourceGenerator.cs:146-997 | one generated key appends its extension method, followed by a wrapper exactly for sequence operators that need a new type; the extension is in-place slicing exactly for `Skip`/`Take` on a receiver with a length, and by-length exactly for the terminals that have such a template |
| Synthesis.EmitUnique | SpanLinq/SourceGenerator.cs:146-997 | the declarations of one key are not repeated, and include that key's extension |
| Synthesis.GenerateSpec | SpanLinq/SourceGenerator.cs:127-146 | generation only appends; it records the key; an already generated key leaves the state unchanged |
| Synthesis.GeneratePreservesConsistency | SpanLinq/SourceGenerator.cs:127-133 | across any generation step, each key is generated at most once and every declaration belongs to a recorded key |
| Synthesis.GenerateResolvesForwards | SpanLinq/SourceGenerator.cs:1003-1014 | every `Span` forwarder in the document comes after the `ReadOnlySpan` extension it forwards to |
| Synthesis.CascadeUsesOwnShape | SpanLinq/SourceGenerator.cs:1003-1014 | for a forwarding operator, the `ReadOnlySpan` overload returns the shape the `Span` overload promises |
| Synthesis.WrapperMembersMatchShape | SpanLinq/SourceGenerator.cs:178-190 | a wrapper declares `Length`, the indexer and `Slice` exactly when its shape says it has a length |
| Synthesis.SelectOnSpanDeclarations | SpanLinq/SourceGenerator.cs:152-160 | `Select` on `Span<T>` first emits the `ReadOnlySpan` extension and its `SelectSpan` wrapper, then the forwarding `Span` extension |
| Synthesis.Output.constructor | SpanLinq/SourceGenerator.cs:31-33 | a pass starts with an empty document and an empty memo set |
| Synthesis.Output.Generate | SpanLinq/SourceGenerator.cs:127-146 | the document and memo set become the generation function of the old state and the unit's result, and the unit's cache is filled |
| Driver.TryGenerateSpec | SpanLinq/SourceGenerator.cs:47-83 | a call that does not name an operator, or already binds, changes nothing and gives no shape; a shape is returned only for a sequence operator |
| Driver.RoundSpec | SpanLinq/SourceGenerator.cs:43-84 | a round keeps a subset of the pending calls and only appends to the state |
| Driver.LoopSpec | SpanLinq/SourceGenerator.cs:35-94 | the loop only appends to the state |
| Driver.TrackedReceiverWellFormed | SpanLinq/SourceGenerator.cs:37-40 | the shape of a tracked receiver type is well formed |
| Driver.GenerateWrapperShapes | SpanLinq/SourceGenerator.cs:127-146 | every wrapper appended by generation carries a result shape of the rule |
| Driver.GenerateKeepsInvariant | SpanLinq/SourceGenerator.cs:127-146 | generation keeps memo consistency, forwarders resolved and well-formed wrapper shapes |
| Driver.TryGenerateKeepsInvariant | SpanLinq/SourceGenerator.cs:47-83 | a chained `TryGenerate` keeps the invariant and returns only well-formed shapes |
| Driver.RoundKeepsInvariant | SpanLinq/SourceGenerator.cs:43-84 | a round keeps the invariant |
| Driver.LoopKeepsInvariant | SpanLinq/SourceGenerator.cs:35-94 | the recompile loop keeps the invariant |
| Driver.ExecuteOutputConsistent | SpanLinq/SourceGenerator.cs:20-100 | the added file never declares a key twice, has its forwarders resolved, and has well-formed wrapper shapes |
| Driver.RoundKeeps | SpanLinq/SourceGenerator.cs:43-84 | the kept calls are an ordered subsequence of the pending ones; only a call naming a sequence operator can leave, so bound and terminal calls stay |
| Driver.RoundAllBound | SpanLinq/SourceGenerator.cs:43-59 | when every pending call already binds, a round keeps all of them and generates nothing |
| Driver.AllBoundNothingAdded | SpanLinq/SourceGenerator.cs:86-99 | when every collected call binds in the original compilation, no file is added |
| Driver.ChainOnViewDeferred | SpanLinq/SourceGenerator.cs:69-80 | a call on an untracked receiver whose inner chain yields a span or read-only-span shape gives no shape, and generates only what the inner chain generates |
| Driver.NoEmptyOrOrphanFile | SpanLinq/SourceGenerator.cs:27-30 | without `Span<>` or `ReadOnlySpan<>` nothing is added, and an added file is never empty (lines 96-99) |
| Driver.SelectSelectToList | SpanLinq.Tests.Unit/GeneratorTests.cs:20-172 | `span.Select(..).Select(..).ToList()` adds, in order, the `ReadOnlySpan` `Select` with `SelectSpan`, the `Span` forwarder, the `SelectSpan` `Select` with `SelectSelectSpan`, and `ToList` on `SelectSelectSpan` |
| Driver.TryGenerate | SpanLinq/SourceGenerator.cs:47-83 | the imperative `TryGenerate` leaves the output in the state, and returns the shape, of its specification |
| Driver.Round | SpanLinq/SourceGenerator.cs:43-84 | the imperative filter round leaves the output in the state, and returns the kept calls, of its specification |
| Driver.Execute | SpanLinq/SourceGenerator.cs:20-100 | the imperative generator adds exactly the file of its specification |
| Sequences.Map | SpanLinq/SourceGenerator.cs:208-216 | `Select` yields one element per source element, the selector applied in order |
| Sequences.Filter | SpanLinq/SourceGenerator.cs:275-285 | `Where` yields source elements that satisfy the predicate, every such element, and no more than the source |
| Sequences.MapAppend | SpanLinq/SourceGenerator.cs:208-216 | `Select` distributes over concatenation |
| Sequences.FilterAppend | SpanLinq/SourceGenerator.cs:275-285 | `Where` distributes over concatenation, so it keeps order |
| Sequences.FilterStep | SpanLinq/SourceGenerator.cs:275-285 | one more source element adds itself to the `Where` result exactly when it passes |
| Sequences.Take | SpanLinq/SourceGenerator.cs:398-458 | `Take(n)` is the prefix of length `n` clamped to `0..length` |
| Sequences.Skip | SpanLinq/SourceGenerator.cs:460-533 | `Skip(n)` has the length left after dropping `n` clamped to `0..length` |
| Sequences.TakeSkipSplit | SpanLinq/SourceGenerator.cs:398-533 | `Take(n)` followed by `Skip(n)` is the source; a non-positive count takes nothing and skips nothing; a count past the end takes everything and skips everything |
| Sequences.SkipStep | SpanLinq/SourceGenerator.cs:519-528 | once the count is used up, each further element is yielded |
| Sequences.Reversed | SpanLinq/SourceGenerator.cs:880-962 | `Reverse` yields element `length - 1 - i` at position `i` |
| Sequences.ReversedTwice | SpanLinq/SourceGenerator.cs:880-962 | reversing twice gives the source back |
| Sequences.ReversedMap | SpanLinq/SourceGenerator.cs:880-962 | `Reverse` after `Select` equals `Select` after `Reverse` |
| Sequences.AllIsNotAnyNot | SpanLinq/SourceGenerator.cs:734-748 | `All(p)` holds exactly when no element fails `p`, and holds on an empty source |
| Sequences.AnyAfterWhere | SpanLinq/SourceGenerator.cs:561-596 | `Where(p)` is non-empty exactly when `Any(p)` |
| Sequences.FirstIndex | SpanLinq/SourceGenerator.cs:598-646 | the first position matching the predicate, or the length when none matches |
| Sequences.LastIndex | SpanLinq/SourceGenerator.cs:750-878 | the last position matching the predicate, or -1 when none matches |
| Sequences.FirstWhere | SpanLinq/SourceGenerator.cs:598-646 | absent exactly when nothing matches; otherwise a matching element with no match before it |
| Sequences.LastWhere | SpanLinq/SourceGenerator.cs:750-878 | absent exactly when nothing matches; otherwise a matching element with no match after it |
| Sequences.LastWhereStep | SpanLinq/SourceGenerator.cs:780-802 | the forward traversal's "last seen" update: one more element replaces the last match exactly when it passes |
| Sequences.LastWhereIsFirstOfReversed | SpanLinq/SourceGenerator.cs:770-775 | scanning backward from the end finds the last match: it is the first match of the reversal |
| Sequences.First | SpanLinq/SourceGenerator.cs:622-646 | `First()` is the first element, failing with `NoElements` exactly on an empty source |
| Sequences.FirstMatch | SpanLinq/SourceGenerator.cs:622-646 | `First(p)` succeeds exactly when something matches, and fails with `NoMatch` otherwise |
| Sequences.FirstOrDefault | SpanLinq/SourceGenerator.cs:598-620 | `FirstOrDefault(p)` gives a matching source element when one exists, and the default otherwise |
| Sequences.Last | SpanLinq/SourceGenerator.cs:807-878 | `Last()` is the last element, failing with `NoElements` exactly on an empty source |
| Sequences.LastMatch | SpanLinq/SourceGenerator.cs:807-878 | `Last(p)` succeeds exactly when something matches, and fails with `NoMatch` otherwise |
| Sequences.LastOrDefault | SpanLinq/SourceGenerator.cs:750-805 | `LastOrDefault(p)` gives a matching source element when one exists, and the default otherwise |
| Sequences.Single | SpanLinq/SourceGenerator.cs:690-732 | `Single()` succeeds exactly on one element; it fails with `NoElements` on none and `MoreThanOneElement` on more |
| Sequences.SingleOrDefault | SpanLinq/SourceGenerator.cs:648-688 | `SingleOrDefault()` gives the default on none and the element on one; it fails with `MoreThanOneElement` on more |
| Sequences.SingleIsFirstAndLast | SpanLinq/SourceGenerator.cs:622-878 | when `Single` succeeds, `First` and `Last` give the same element |
| Sequences.ContainsDefault | SpanLinq/SourceGenerator.cs:964-997 | with no comparer, `Contains` is membership |
| Views.SelectView.Length | SpanLinq/SourceGenerator.cs:181 | the `Select` wrapper's length is the number of elements it yields |
| Views.SelectView.Get | SpanLinq/SourceGenerator.cs:189 | the indexer gives the element enumeration yields at that position |
| Views.SelectView.Slice | SpanLinq/SourceGenerator.cs:184-187 | slicing narrows the yielded elements to the window |
| Views.ReverseView.Length | SpanLinq/SourceGenerator.cs:909 | the `Reverse` wrapper's length is the number of elements it yields |
| Views.ReverseView.Get | SpanLinq/SourceGenerator.cs:917 | the backward indexer gives the element enumeration yields at that position |
| Views.ReverseView.Slice | SpanLinq/SourceGenerator.cs:912-915 | slicing the mirrored receiver window narrows the reversed elements to the requested window |
| Views.MirrorWindow | SpanLinq/SourceGenerator.cs:912-915 | reversing a window gives the mirrored window of the reversal |
| Views.TakeEager | SpanLinq/SourceGenerator.cs:400-410 | the in-place `Take` slice equals LINQ `Take` for every 32-bit count, negative ones included |
| Views.SkipEager | SpanLinq/SourceGenerator.cs:462-480 | the in-place `Skip` slice equals LINQ `Skip` for every 32-bit count |
| Views.TakeSelectView | SpanLinq/SourceGenerator.cs:400-410 | the eager `Take` on a `Select` wrapper leaves it yielding LINQ `Take` of what it yielded |
| Views.SkipReverseView | SpanLinq/SourceGenerator.cs:462-480 | the eager `Skip` on a `Reverse` wrapper leaves it yielding LINQ `Skip` of what it yielded |
| Enumerators.SelectEnumerator.constructor | SpanLinq/SourceGenerator.cs:201-206 | a new `Select` enumerator will yield the mapped source and has yielded nothing |
| Enumerators.SelectEnumerator.MoveNext | SpanLinq/SourceGenerator.cs:208-216 | each step either yields the next mapped element, or reports the end once everything is yielded |
| Enumerators.WhereEnumerator.constructor | SpanLinq/SourceGenerator.cs:267-271 | a new `Where` enumerator will yield the filtered source |
| Enumerators.WhereEnumerator.MoveNext | SpanLinq/SourceGenerator.cs:275-285 | the skipping loop yields the next element of the filtered source, or reports the end once all are yielded |
| Enumerators.SkipEnumerator.constructor | SpanLinq/SourceGenerator.cs:511-515 | a new `Skip` enumerator will yield the skipped source |
| Enumerators.SkipEnumerator.MoveNext | SpanLinq/SourceGenerator.cs:519-528 | the first step consumes `count` elements; every step yields the next element of `Skip(count)`, or reports the end |
| Enumerators.Decrement32 | SpanLinq/SourceGenerator.cs:451 | `remaining--` on a 32-bit `int`: one less, except that the minimum wraps to the maximum |
| Enumerators.TakeEnumerator.constructor | SpanLinq/SourceGenerator.cs:441-445 | the lazy `Take` starts with `remaining` equal to the count and nothing consumed |
| Enumerators.TakeEnumerator.MoveNext | SpanLinq/SourceGenerator.cs:449-453 | the step decrements with wrap-around, then yields exactly when the new count is non-negative and the receiver has another element |
| Enumerators.LazyTakeLengthCases | SpanLinq/SourceGenerator.cs:449-453 | the lazy `Take` yields `clamp(count)` elements for every count except `int.MinValue`, where it yields the whole source |
| Enumerators.ToListOfTake | SpanLinq/SourceGenerator.cs:449-453 | draining the lazy `Take` as written gives the prefix of the lazy-take length |
| Enumerators.TakeMinValueYieldsAll | SpanLinq/SourceGenerator.cs:449-453 | on a non-empty source, `Take(int.MinValue)` as written yields everything, where LINQ `Take` yields nothing |
| Enumerators.CheckedTakeEnumerator.MoveNext | SpanLinq/SourceGenerator.cs:449-453 | the corrected step (test before decrement) yields the next element of LINQ `Take(count)`, or reports the end |
| Enumerators.ToListOfCheckedTake | SpanLinq/SourceGenerator.cs:449-453 | draining the corrected `Take` gives LINQ `Take` for every count |
| Enumerators.ReverseEnumerator.Indexed | SpanLinq/SourceGenerator.cs:930-934 | the indexed `Reverse` enumerator starts at the last index and will yield the reversal |
| Enumerators.ReverseEnumerator.Buffered | SpanLinq/SourceGenerator.cs:938-944 | the buffering constructor copies the receiver in order through its enumerator, and will yield the reversal |
| Enumerators.ReverseEnumerator.MoveNext | SpanLinq/SourceGenerator.cs:949-957 | each step yields the next element of the reversal, or reports the end |
| Enumerators.ToListOfSelect | SpanLinq/SourceGenerator.cs:306-313 | `ToList` over a `Select` wrapper is the mapped source |
| Enumerators.ToListOfWhere | SpanLinq/SourceGenerator.cs:306-313 | `ToList` over a `Where` wrapper is the filtered source |
| Enumerators.ToListOfSkip | SpanLinq/SourceGenerator.cs:306-313 | `ToList` over a `Skip` wrapper is LINQ `Skip` |
| Enumerators.ToListOfReverse | SpanLinq/SourceGenerator.cs:927-957 | `ToList` over a `Reverse` wrapper is the reversal, with or without a length |
| Terminals.ToList | SpanLinq/SourceGenerator.cs:306-313 | the `foreach` into a list gives the elements in order |
| Terminals.ToArrayByLength | SpanLinq/SourceGenerator.cs:332-346 | the array pre-sized by `Length` and filled by index holds the elements |
| Terminals.ToArrayByList | SpanLinq/SourceGenerator.cs:348-358 | the array built through `ToList` holds the elements |
| Terminals.CountByTraversal | SpanLinq/SourceGenerator.cs:548-555 | counting by traversal gives the number of elements |
| Terminals.AnyByStep | SpanLinq/SourceGenerator.cs:572-580 | `Any()` by one step is true exactly on a non-empty source |
| Terminals.AnyMatch | SpanLinq/SourceGenerator.cs:584-594 | `Any(p)` is true exactly when some element matches |
| Terminals.All | SpanLinq/SourceGenerator.cs:734-748 | `All(p)` is true exactly when every element matches |
| Terminals.FirstFound | SpanLinq/SourceGenerator.cs:598-646 | the first-match traversal finds the first matching element, or nothing |
| Terminals.FirstOrDefault | SpanLinq/SourceGenerator.cs:598-620 | `FirstOrDefault` gives the first (matching) element or the default |
| Terminals.First | SpanLinq/SourceGenerator.cs:625-633 | `First()` gives the first element or `NoElements` |
| Terminals.FirstMatch | SpanLinq/SourceGenerator.cs:635-644 | `First(p)` gives the first match or `NoMatch` |
| Terminals.SingleOrDefaultByLength | SpanLinq/SourceGenerator.cs:650-665 | the length switch gives the default, the element, or `MoreThanOneElement` |
| Terminals.SingleOrDefaultByEnumerator | SpanLinq/SourceGenerator.cs:667-685 | two enumerator steps decide the same result without a length |
| Terminals.SingleByLength | SpanLinq/SourceGenerator.cs:692-708 | the length switch gives `NoElements`, the element, or `MoreThanOneElement` |
| Terminals.SingleByEnumerator | SpanLinq/SourceGenerator.cs:710-729 | two enumerator steps decide the same result without a length |
| Terminals.LastFoundByLength | SpanLinq/SourceGenerator.cs:770-775 | the backward index loop finds the last match, or nothing |
| Terminals.LastFoundByTraversal | SpanLinq/SourceGenerator.cs:780-802 | the forward traversal with a found flag finds the last match, or nothing |
| Terminals.LastOrDefaultByLength | SpanLinq/SourceGenerator.cs:754-766 | `LastOrDefault()` with a length gives the last element or the default |
| Terminals.LastOrDefault | SpanLinq/SourceGenerator.cs:750-805 | `LastOrDefault(p)` gives the last match or the default, with or without a length |
| Terminals.LastByLength | SpanLinq/SourceGenerator.cs:811-824 | `Last()` with a length gives the last element or `NoElements` |
| Terminals.LastByTraversal | SpanLinq/SourceGenerator.cs:841-856 | `Last()` by traversal gives the last element or `NoElements` |
| Terminals.LastMatch | SpanLinq/SourceGenerator.cs:807-878 | `Last(p)` gives the last match or `NoMatch`, with or without a length |
| Terminals.Contains | SpanLinq/SourceGenerator.cs:964-997 | `Contains` is true exactly when some element equals the value, under the comparer or the default equality |
| Scenarios.SquaresOfFive | SpanLinq.Tests.Integration/Tests.cs:9-14 | `Select(x => x * x)` over `1..5` is `1, 4, 9, 16, 25` |
| Scenarios.SelectWhere | SpanLinq.Tests.Integration/Tests.cs:23-28 | `Select(x => x * x).Where(x => x > 5)` is `9, 16, 25` |
| Scenarios.Takes | SpanLinq.Tests.Integration/Tests.cs:58-84 | `Take(3)`, `Select(..).Take(3)` and `Take(6)` give the expected lists |
| Scenarios.WhereTakes | SpanLinq.Tests.Integration/Tests.cs:72-91 | `Where(odd).Take(2)` is `1, 3`, and `Take(4)` is `1, 3, 5` |
| Scenarios.Skips | SpanLinq.Tests.Integration/Tests.cs:93-126 | the skip tests' answers, including the empty results past the end |
| Scenarios.CountAndAny | SpanLinq.Tests.Integration/Tests.cs:142-183 | `Where(odd).Count()` is 3, and `Where(x => x > 10).Any()` is false |

## Left out

- The Roslyn host is not modelled: symbol binding, static types and recompilation with the added text. The `Driver.Host` record stands in for it, with two oracles: whether a call binds in a compilation, and the static type of an expression. Properties about `Execute` assume these oracles answer for the compilations the loop builds.
- Driver.ExecuteOutputConsistent: assumes that the host's `Span<>` and `ReadOnlySpan<>` symbols are the `System` ones, with one type parameter and a `Length` (`HostWellFormed`). It does not derive this from the host.
- The rendered C# text (the template strings, `CreateFullSourceText`, `AddSource`, `Initialize`, `ThrowHelper`) is not modelled. A declaration is modelled by its operator, receiver, type parameters, strategy and shape, not by its characters.
- The `ToDictionary` template (SpanLinq/SourceGenerator.cs:363-396) is not modelled. No catalogue member selects it.
- Capacity hints, `stackalloc` and other allocation choices are not modelled. Neither are `ref struct` lifetime rules or span aliasing: every receiver is its sequence of elements.
- Delegates are pure total functions. A selector or predicate that throws or has side effects is not modelled.
- Terminals.CountByTraversal: counts with an unbounded integer, so the 32-bit `count++` overflow past `int.MaxValue` elements is not modelled.
- Enumerators.TakeEnumerator.MoveNext: covers one call; the wrap of `remaining` again after 2^32 further calls is not followed.
- Enumerators.ToListOfTake: requires the source to have at most `int.MaxValue` elements, the most a span can hold.
- Shapes.MethodToGenerate.ResultType: the model's `Synthesis.Output.Generate` reads the result shape before testing the memo set, while the source reads it after (SpanLinq/SourceGenerator.cs:130 and 144). The caller reads it right after (lines 66 and 79), so the shape returned and the state reached are the same.
- The eager `Take`/`Skip` on wrapper views is shown for `Select` (`Take`) and `Reverse` (`Skip`). The other pairs use the same `Slice` contracts.
- Nested wrappers are not proved to compose. Each enumerator's `inner` is a `SourceEnumerator` over the receiver's element sequence, never another generated enumerator. A chain such as `Select(..).Where(..)` is covered only by the argument that the inner wrapper yields its own element sequence. The as-written lazy `Take` enumerator does not expose that sequence at all.

## Findings

| source | as written | input that shows it | evidently intended | confidence | as-written member | corrected member |
|---|---|---|---|---|---|---|
| SpanLinq/SourceGenerator.cs:449-453 | the lazy `Take` enumerator decrements `remaining` before testing it, so `int.MinValue` wraps to `int.MaxValue` | `span.Where(x => true).Take(int.MinValue).ToList()` on a non-empty span yields every element | yield nothing for a negative count, as the eager `Take` (lines 405-407) and LINQ do | not executed | Enumerators.TakeMinValueYieldsAll | Enumerators.ToListOfCheckedTake |
