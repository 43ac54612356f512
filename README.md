# Gu.Roslyn.Extensions: code-style vote, deferred targets, default constructors, symbol equivalence

This project models five small decision and state components of the Roslyn extension
library Gu.Roslyn.Extensions, over abstract data in place of Roslyn syntax and symbols:

- **CodeStyle** (`code_style.dfy`, CompilationStyleWalker.cs). A walker holds a
  four-valued `result` (`NotFound | Yes | No | Mixed`), which `Update` folds and `Clear`
  resets. `CheckCore` visits the containing tree and then every other tree of the
  compilation. It skips generated files (`.g.cs`, `.g.i.cs`) and returns the first
  result that is not `NotFound`. The concrete walker's visitor is the parameter `visit`:
  for each root, the sequence of `Update` arguments that a visit of it issues.
- **QualifyEventAccess** (`qualify_event_access.dfy`, QualifyEventAccessWalker.cs).
  The identifier classifier votes `Yes` for `this.E` when `E` is an instance event, in any
  position (`this.E += h` included). It votes `No` for a bare `E` that names an instance
  event and is not shadowed by a local or parameter, but only in four positions: as an
  argument, as a statement-level invocation, as a statement-level conditional-access
  invocation (`E?.Invoke()`), or as the receiver of a member access. A bare `E` anywhere
  else (`E += h`, `var h = E;`) casts no vote. The declaration
  overrides decide where the walk descends. `Walk` is the syntax walker with those
  overrides. `Check` runs `CheckCore` with a freshly borrowed walker.
- **RecursiveWalkers** (`recursive_walker.dfy`, RecursiveWalker.cs). `TryGetTargetSymbol`
  wraps the base resolver. The base resolver is the function parameter `resolve`.
  The method appends qualifying targets to `targets` and always reports failure.
- **Constructors** (`constructor.dfy`, Constructor.cs). `TryFindDefault` searches a table
  of named types. A top-level search looks only at the starting type; a recursive search
  climbs the base-type chain until it reaches null or `System.Object`.
  In each type it looks for the first constructor with no parameters, exactly one
  declaring syntax reference, and that type as its containing type.
- **Symbols** (`symbols.dfy`, ISymbolExt.cs). `IsEither` and `IsEither3` are type tests
  over a small interface hierarchy. `IsEquivalentTo` is the recursive equivalence. It
  climbs only `y`, to its original definition or to the member it overrides.

`wrappers.dfy` holds `Option`, `Result`, `Outcome` and `ArgumentError`. `None` stands for
C# `null`. `Failure(ArgumentNull(name))` / `Fail(...)` stand for a thrown
`ArgumentNullException`.

Modelling choices:

- Roslyn helpers become data or parameters:
  - `IsInStaticContext`, `TryFirstAncestor`, `Scope.HasLocal` and `Scope.HasParameter`
    become fields of an identifier occurrence.
  - `TryFindEvent` is a lookup in the containing type's `events` map.
  - `IsAutoProperty` and the base `ExecutionWalker.TryGetTargetSymbol` are function
    parameters.
- Reference equality `syntaxTree == containing` compares the tree's `id` field.
- Symbol equality is structural equality of the `Symbol` datatype. A symbol is its own
  original definition exactly when its `original` field is `None`.
- `Update` is not commutative. From `Yes`, `Update(Mixed)` leaves `Yes`; from `Mixed`,
  `Update(Yes)` leaves `Mixed`. So the order-independence laws are stated for the votes
  the walkers actually cast, `Yes` and `No`.
- `CheckCore` does not clear `result` between trees. Its contract is stated from any
  entry value. `CheckCoreFromNotFound` shows that from `NotFound` (the state of a
  borrowed walker) every tree is judged as if by a fresh walker.
- The base-type chain in Constructor.cs is acyclic in Roslyn. The table encodes this by
  giving every base type a smaller index than the types that derive from it.
- `System.Object` is recognised by its qualified name. This stands for the comparison
  with `QualifiedType.System.Object`.

The class summary at RecursiveWalker.cs:8 says the walker saves all targets for deferred
walking. The pattern at RecursiveWalker.cs:39 matches any non-null `TargetNode` and
rejects it. So the walker records only targets that have no declaration node and are
neither fields nor auto-properties. `IsRecursiveTarget` and `DeferredAllIsFiltered` state
the filter as the code writes it.

## Model

| member | source | states |
|---|---|---|
| CodeStyle.CompilationStyleWalker.constructor | Gu.Roslyn.CodeFixExtensions/CodeStyle/CompilationStyleWalker.cs:16 | a new walker's result is NotFound |
| CodeStyle.CompilationStyleWalker.Update | Gu.Roslyn.CodeFixExtensions/CodeStyle/CompilationStyleWalker.cs:132-158 | from NotFound the result becomes the new value; from Yes only No gives Mixed, and from No only Yes does; Mixed never changes |
| CodeStyle.CompilationStyleWalker.Clear | Gu.Roslyn.CodeFixExtensions/CodeStyle/CompilationStyleWalker.cs:161-164 | the result is reset to NotFound |
| CodeStyle.CompilationStyleWalker.VisitRoot | Gu.Roslyn.CodeFixExtensions/CodeStyle/CompilationStyleWalker.cs:118-121 | visiting a root applies its Update calls in order: the result is their fold from the old result |
| CodeStyle.CompilationStyleWalker.Check | Gu.Roslyn.CodeFixExtensions/CodeStyle/CompilationStyleWalker.cs:111-125 | an excluded tree or one without a root yields NotFound and leaves the field; otherwise the tree is visited and the accumulated field is returned |
| CodeStyle.CompilationStyleWalker.CheckCore | Gu.Roslyn.CodeFixExtensions/CodeStyle/CompilationStyleWalker.cs:77-126 | null containing or null compilation fails before any tree is checked, field unchanged; otherwise the answer and the new field are those of the containing-first scan that skips the containing tree in the loop |
| CodeStyle.CheckTree | Gu.Roslyn.CodeFixExtensions/CodeStyle/CompilationStyleWalker.cs:111-125 | an excluded or rootless tree yields NotFound with the field unchanged; a found value is always the new field value |
| CodeStyle.Updated | Gu.Roslyn.CodeFixExtensions/CodeStyle/CompilationStyleWalker.cs:132-158 | from NotFound the new value is taken; the result is NotFound only when both the old and the new value are; a found result either stays or becomes Mixed; Mixed arises exactly from Mixed, from NotFound updated with Mixed, or from Yes meeting No |
| CodeStyle.UpdateFromNotFound | Gu.Roslyn.CodeFixExtensions/CodeStyle/CompilationStyleWalker.cs:136-138 | Update(v) from NotFound gives exactly v |
| CodeStyle.UpdateFromYesOrNo | Gu.Roslyn.CodeFixExtensions/CodeStyle/CompilationStyleWalker.cs:139-152 | from Yes, only No gives Mixed; from No, only Yes gives Mixed; otherwise the value stays |
| CodeStyle.MixedIsAbsorbing | Gu.Roslyn.CodeFixExtensions/CodeStyle/CompilationStyleWalker.cs:153-154 | no sequence of updates leaves Mixed |
| CodeStyle.UpdateIsIdempotent | Gu.Roslyn.CodeFixExtensions/CodeStyle/CompilationStyleWalker.cs:132-158 | Update(v); Update(v) has the effect of one Update(v) |
| CodeStyle.UpdateIsNotCommutative | Gu.Roslyn.CodeFixExtensions/CodeStyle/CompilationStyleWalker.cs:139-154 | Update(Yes) then Update(Mixed) gives Yes, but Update(Mixed) then Update(Yes) gives Mixed |
| CodeStyle.FoldAppend | Gu.Roslyn.CodeFixExtensions/CodeStyle/CompilationStyleWalker.cs:132-158 | updating with a + b equals updating with a and then with b |
| CodeStyle.FoundStaysFound | Gu.Roslyn.CodeFixExtensions/CodeStyle/CompilationStyleWalker.cs:139-154 | once the result is not NotFound, no updates bring it back to NotFound |
| CodeStyle.FoldRecordsOccurrences | Gu.Roslyn.CodeFixExtensions/CodeStyle/CompilationStyleWalker.cs:132-158 | for Yes/No votes, the result after them records exactly which of Yes and No occurred, together with what the start value recorded |
| CodeStyle.FreshFoldIsSummary | Gu.Roslyn.CodeFixExtensions/CodeStyle/CompilationStyleWalker.cs:132-158 | from NotFound, Yes/No votes give NotFound, Yes, No or Mixed as neither, only Yes, only No, or both occurred |
| CodeStyle.FoldDependsOnlyOnOccurrences | Gu.Roslyn.CodeFixExtensions/CodeStyle/CompilationStyleWalker.cs:132-158 | two Yes/No vote sequences with the same votes present give the same result, whatever their order and number |
| CodeStyle.EndsWithIffStem | Gu.Roslyn.CodeFixExtensions/CodeStyle/CompilationStyleWalker.cs:168-169 | the ordinal suffix test: a string ends with a suffix exactly when it is some stem followed by that suffix |
| CodeStyle.IsExcluded | Gu.Roslyn.CodeFixExtensions/CodeStyle/CompilationStyleWalker.cs:166-170 | a path is excluded exactly when it is some stem followed by .g.i.cs or by .g.cs |
| CodeStyle.HandWrittenFileIsNotExcluded | Gu.Roslyn.CodeFixExtensions/CodeStyle/CompilationStyleWalker.cs:166-170 | Foo.cs and Foo.i.cs are walked; Foo.g.cs and Foo.g.i.cs are not |
| CodeStyle.Others | Gu.Roslyn.CodeFixExtensions/CodeStyle/CompilationStyleWalker.cs:95-101 | the trees the loop checks are exactly the compilation's trees other than the containing one |
| CodeStyle.OthersAppend | Gu.Roslyn.CodeFixExtensions/CodeStyle/CompilationStyleWalker.cs:95-101 | skipping the containing tree keeps the compilation's order: the other trees of a + b are those of a followed by those of b |
| CodeStyle.FirstFound | Gu.Roslyn.CodeFixExtensions/CodeStyle/CompilationStyleWalker.cs:89-109 | NotFound exactly when every tree's own verdict is NotFound; otherwise the verdict of the first tree that has one, every earlier tree having none |
| CodeStyle.ScanOthers | Gu.Roslyn.CodeFixExtensions/CodeStyle/CompilationStyleWalker.cs:95-109 | the loop answers NotFound or the field it leaves, since it stops at the first tree that finds something; when every tree is the containing one, generated or rootless, it answers NotFound and leaves the field as it was |
| CodeStyle.CheckCoreStep | Gu.Roslyn.CodeFixExtensions/CodeStyle/CompilationStyleWalker.cs:89-109 | the answer is NotFound or the field left behind; a generated or rootless containing tree passes straight to the loop over the others; when no tree can be walked the answer is NotFound and the field is unchanged |
| CodeStyle.ScanOthersFromNotFound | Gu.Roslyn.CodeFixExtensions/CodeStyle/CompilationStyleWalker.cs:95-109 | from NotFound, the loop over the other trees answers with the first non-NotFound fresh verdict among them, and a NotFound answer leaves the field NotFound |
| CodeStyle.CheckCoreFromNotFound | Gu.Roslyn.CodeFixExtensions/CodeStyle/CompilationStyleWalker.cs:89-109 | from NotFound, CheckCore answers with the first non-NotFound fresh verdict over the containing tree and then the other trees in order, and NotFound when there is none |
| QualifyEventAccess.IsUnqualifiedUse | Gu.Roslyn.CodeFixExtensions/CodeStyle/QualifyEventAccessWalker.cs:58-62 | the No shapes are exactly a statement-level conditional access whose WhenNotNull is an invocation, an argument, a statement-level invocation, or a member access with the identifier as its expression; `this.X` with the identifier as name is never one of them |
| QualifyEventAccess.IsStatic | Gu.Roslyn.CodeFixExtensions/CodeStyle/QualifyEventAccessWalker.cs:85-97 | a member counts as instance exactly when it is a method, property or event field declared without `static` |
| QualifyEventAccess.IsInstanceEvent | Gu.Roslyn.CodeFixExtensions/CodeStyle/QualifyEventAccessWalker.cs:78-84 | true exactly when the identifier is outside a static context, inside a type, and names an event of that type that is a method, property or event field without `static` |
| QualifyEventAccess.Vote | Gu.Roslyn.CodeFixExtensions/CodeStyle/QualifyEventAccessWalker.cs:56-76 | an identifier casts at most one vote, and only Yes or No |
| QualifyEventAccess.VoteYesIffThisQualified | Gu.Roslyn.CodeFixExtensions/CodeStyle/QualifyEventAccessWalker.cs:71-75 | the vote is Yes exactly when the identifier is the name in `this.X` and X is an instance event |
| QualifyEventAccess.VoteNoIffBareInstanceEvent | Gu.Roslyn.CodeFixExtensions/CodeStyle/QualifyEventAccessWalker.cs:58-70 | the vote is No exactly when the parent is a statement-level conditional-access invocation, an argument, a statement-level invocation or a member access with the identifier as receiver, and it names an unshadowed instance event |
| QualifyEventAccess.OnlyInstanceEventsVote | Gu.Roslyn.CodeFixExtensions/CodeStyle/QualifyEventAccessWalker.cs:78-98 | an identifier in a static context, outside a type, naming no event, or naming a static event (or a member that is not a method, property or event field) casts no vote |
| QualifyEventAccess.ShadowingSuppressesOnlyNo | Gu.Roslyn.CodeFixExtensions/CodeStyle/QualifyEventAccessWalker.cs:63-75 | a local or parameter of the same name prevents a No vote, while `this.E` still votes Yes |
| QualifyEventAccess.DescendInto | Gu.Roslyn.CodeFixExtensions/CodeStyle/QualifyEventAccessWalker.cs:103-176 | field declarations are never descended and not null-checked; the other overrides fail on null and descend exactly into declarations without `static` |
| QualifyEventAccess.SkippedDeclarationsCastNoVote | Gu.Roslyn.CodeFixExtensions/CodeStyle/QualifyEventAccessWalker.cs:103-176 | nothing inside a field declaration or a static constructor, class, struct, property or method votes |
| QualifyEventAccess.VotesAreVotes | Gu.Roslyn.CodeFixExtensions/CodeStyle/QualifyEventAccessWalker.cs:49-176 | a walk issues only Yes and No updates |
| QualifyEventAccess.TreeVerdictIsSummary | Gu.Roslyn.CodeFixExtensions/CodeStyle/QualifyEventAccessWalker.cs:49-176 | for a tree that is not a generated file and has a root, the fresh verdict is Yes, No or Mixed as `this.E`, bare `E`, or both occur in it, and NotFound when neither does |
| QualifyEventAccess.VisitIdentifierName | Gu.Roslyn.CodeFixExtensions/CodeStyle/QualifyEventAccessWalker.cs:49-100 | a null node fails with the result unchanged; otherwise the identifier's vote, if any, is applied with Update |
| QualifyEventAccess.Walk | Gu.Roslyn.CodeFixExtensions/CodeStyle/QualifyEventAccessWalker.cs:49-176 | walking a node applies its votes, in depth-first order, to the result |
| QualifyEventAccess.WalkAll | Gu.Roslyn.CodeFixExtensions/CodeStyle/QualifyEventAccessWalker.cs:103-176 | walking the children in order applies their votes in order |
| QualifyEventAccess.Check | Gu.Roslyn.CodeFixExtensions/CodeStyle/QualifyEventAccessWalker.cs:40-46 | null arguments fail; otherwise the answer is the first verdict that is not NotFound among the containing tree and then the other trees |
| RecursiveWalkers.IsRecursiveTarget | Gu.Roslyn.AnalyzerExtensions/Walkers/Execution/RecursiveWalker.cs:35-44 | a target is recorded exactly when it has no target node, is not an IFieldSymbol, and is not an IPropertySymbol that is an auto-property; for a symbol that is not a property the auto-property helper plays no part |
| RecursiveWalkers.Deferred | Gu.Roslyn.AnalyzerExtensions/Walkers/Execution/RecursiveWalker.cs:27-44 | one call appends at most one entry, exactly when the base resolver succeeded with a recursive target, and the entry holds the queried node with the base target's symbol and target node |
| RecursiveWalkers.DeferredAllAppends | Gu.Roslyn.AnalyzerExtensions/Walkers/Execution/RecursiveWalker.cs:14-30 | folding the per-call contract of `TryGetTargetSymbol` over a run of calls with one fixed base resolver: later calls only append, so the entries are in call order |
| RecursiveWalkers.DeferredAllIsFiltered | Gu.Roslyn.AnalyzerExtensions/Walkers/Execution/RecursiveWalker.cs:35-44 | over a run of calls with one fixed base resolver: at most one entry per call; no entry has a target node, is a field or is an auto-property, and each was recorded for a queried node |
| RecursiveWalkers.NothingRecordedWithoutRecursiveTargets | Gu.Roslyn.AnalyzerExtensions/Walkers/Execution/RecursiveWalker.cs:27-31 | over a run of calls with one fixed base resolver: when it fails or yields a non-recursive target on every call, nothing is recorded |
| RecursiveWalkers.RecursiveWalker.constructor | Gu.Roslyn.AnalyzerExtensions/Walkers/Execution/RecursiveWalker.cs:14 | a new walker has no targets |
| RecursiveWalkers.RecursiveWalker.Clear | Gu.Roslyn.AnalyzerExtensions/Walkers/Execution/RecursiveWalker.cs:19-21 | the targets are emptied and every recorded target is still a recursive target |
| RecursiveWalkers.RecursiveWalker.TryGetTargetSymbol | Gu.Roslyn.AnalyzerExtensions/Walkers/Execution/RecursiveWalker.cs:25-45 | always returns false; the out target is the base resolver's; targets gain exactly the deferred entry at the end; every recorded target stays a recursive target |
| Constructors.FirstCandidateFrom | Gu.Roslyn.AnalyzerExtensions/Symbols/Constructor.cs:24-32 | the chosen constructor has no parameters, one declaring reference and the examined type as its container, and no earlier constructor does |
| Constructors.FindDefault | Gu.Roslyn.AnalyzerExtensions/Symbols/Constructor.cs:18-43 | null or System.Object gives no result; a result has no parameters and one declaring reference, belongs to a type other than System.Object, and for a top-level search belongs to the starting type |
| Constructors.SearchChain | Gu.Roslyn.AnalyzerExtensions/Symbols/Constructor.cs:21-39 | the examined types start at the starting type, each is the base type of the one before, none is System.Object, a recursive search stops where the next base type is null or System.Object, and a top-level search examines at most one type; the chain is empty exactly for a null start or System.Object |
| Constructors.ClosestMatchWins | Gu.Roslyn.AnalyzerExtensions/Symbols/Constructor.cs:21-39 | the nearest examined type that has a candidate supplies its first candidate |
| Constructors.NoMatchOnChain | Gu.Roslyn.AnalyzerExtensions/Symbols/Constructor.cs:21-42 | when no examined type has a candidate, the search fails |
| Constructors.TopLevelExaminesOnlyStart | Gu.Roslyn.AnalyzerExtensions/Symbols/Constructor.cs:34-37 | a top-level search returns the starting type's first candidate or nothing |
| Constructors.TryFindDefault | Gu.Roslyn.AnalyzerExtensions/Symbols/Constructor.cs:18-43 | returns true exactly when it returns a constructor, and that constructor is the one the base-chain search defines; false leaves the result null |
| Symbols.IsEither | Gu.Roslyn.AnalyzerExtensions/Symbols/ISymbolExt.cs:18-23 | null is neither type; when one interface extends the other, the test is the test for the wider interface |
| Symbols.IsEither3 | Gu.Roslyn.AnalyzerExtensions/Symbols/ISymbolExt.cs:33-39 | null is none of the types; when the first interface extends the second or the third, the first adds nothing to the test |
| Symbols.InterfaceHierarchy | Gu.Roslyn.AnalyzerExtensions/Symbols/ISymbolExt.cs:18-39 | every interface extends ISymbol; INamedTypeSymbol, IArrayTypeSymbol and ITypeParameterSymbol extend ITypeSymbol, which with INamespaceSymbol extends INamespaceOrTypeSymbol; none of these converses holds: ITypeSymbol extends none of the three type interfaces, INamespaceOrTypeSymbol neither ITypeSymbol nor INamespaceSymbol, and ISymbol no other interface |
| Symbols.IsEitherIsSymmetric | Gu.Roslyn.AnalyzerExtensions/Symbols/ISymbolExt.cs:18-23 | the order of the two interfaces does not matter, and naming one interface twice is the single type test |
| Symbols.IsEitherAbsorbsSubInterface | Gu.Roslyn.AnalyzerExtensions/Symbols/ISymbolExt.cs:18-23 | a sub-interface beside its super-interface adds nothing: INamedTypeSymbol or ITypeSymbol is ITypeSymbol, ITypeSymbol or INamespaceOrTypeSymbol is INamespaceOrTypeSymbol, INamespaceSymbol or ITypeSymbol is INamespaceOrTypeSymbol |
| Symbols.IsEither3ExtendsIsEither | Gu.Roslyn.AnalyzerExtensions/Symbols/ISymbolExt.cs:18-39 | the three-way test is the two-way test or the third test, and repeating an interface changes nothing |
| Symbols.IsEither3IsSymmetric | Gu.Roslyn.AnalyzerExtensions/Symbols/ISymbolExt.cs:33-39 | swapping any two of the three interfaces does not change the test |
| Symbols.IsEitherOnInterfaces | Gu.Roslyn.AnalyzerExtensions/Symbols/ISymbolExt.cs:18-23 | every non-null symbol is an ISymbol; a property symbol implements only ISymbol and IPropertySymbol |
| Symbols.OriginalDefinition | Gu.Roslyn.AnalyzerExtensions/Symbols/ISymbolExt.cs:63-67 | a symbol equals its original definition exactly when it has no separate one |
| Symbols.IsEquivalentTo | Gu.Roslyn.AnalyzerExtensions/Symbols/ISymbolExt.cs:50-80 | null x or null y gives false; a non-null symbol is equivalent to itself |
| Symbols.Equivalent | Gu.Roslyn.AnalyzerExtensions/Symbols/ISymbolExt.cs:58-79 | equal symbols are equivalent; apart from equality, only the original-definition step and the overridden-member step can make the result true |
| Symbols.EquivalentStepsToOriginal | Gu.Roslyn.AnalyzerExtensions/Symbols/ISymbolExt.cs:63-67 | when x is a definition and y is not its own original definition, the result is that for y's original definition |
| Symbols.EquivalentStepsToOverridden | Gu.Roslyn.AnalyzerExtensions/Symbols/ISymbolExt.cs:69-77 | otherwise, a property, event or method y with an overridden member gives the result for that member |
| Symbols.EquivalentIffOnClimbPath | Gu.Roslyn.AnalyzerExtensions/Symbols/ISymbolExt.cs:50-80 | x is equivalent to y exactly when x is one of the symbols reached by climbing from y |
| Symbols.EquivalentToOverrider | Gu.Roslyn.AnalyzerExtensions/Symbols/ISymbolExt.cs:69-77 | x is equivalent to any y whose chain of overridden members reaches x; when x is a definition, the symbols the climb passes before x must be their own original definitions, since otherwise the climb detours to an original definition |
| Symbols.OverrideOfConstructedBase | Gu.Roslyn.AnalyzerExtensions/Symbols/ISymbolExt.cs:69-77 | Derived.M overriding a constructed Base<int>.M is equivalent to MoreDerived.M overriding it: a constructed member beyond x on the chain does not matter |
| Symbols.OnlyTheSecondChainIsClimbed | Gu.Roslyn.AnalyzerExtensions/Symbols/ISymbolExt.cs:63-79 | a base method is equivalent to its override, but the override is not equivalent to its base |

## Left out

- The async `CheckCoreAsync` and the async `CheckAsync` wrapper. They do document and project I/O; only the synchronous `CheckCore` scan over a sequence of trees is modelled.
- The walker pool (`Borrow`, `PooledWalker`) and its thread safety. The pooled base class is not part of this model. A borrowed walker is modelled as a freshly constructed one, which is in the cleared state.
- `Update`'s `default` branch, which throws `ArgumentOutOfRangeException`. In C# an out-of-range enum value could reach it: stored from `NotFound`, it makes the next `Update` throw. The walkers here only ever pass `Yes` or `No`, so the branch is unreachable in this code, and the model's closed four-valued result type leaves it out.
- The Roslyn syntax walker itself. `Votes` and `Walk` model its depth-first order over a small syntax datatype: declarations, identifiers and other nodes. Other node kinds, tokens and trivia are not distinguished.
- The Roslyn helpers `IsInStaticContext`, `TryFirstAncestor`, `TryFindEvent`, `Scope.HasLocal`, `Scope.HasParameter` and `IsAutoProperty`. They are inputs of the model, not re-implemented.
- The base `ExecutionWalker`. It is not part of this model. Its `TryGetTargetSymbol` is the parameter `resolve`. Its per-walk state is not modelled, so `base.Clear()` (RecursiveWalker.cs:22) and whatever the base resolver changes in that state are left out. The execution-order, field-initializer and constructor-chaining rules its tests exercise are not modelled.
- RecursiveWalkers.RecursiveWalker.TryGetTargetSymbol: drops the `caller` and `line` arguments, which are only passed on to the base resolver. Whatever the base keys on them is folded into `resolve`.
- Cross-tree symbol resolution (`SemanticModelExt.GetSymbol`), `DocumentEditorExt` and `SimplifyNamesRewriter`. These are wrappers over Roslyn services and are not part of this model.
- `QualifiedType` equality. It is reduced to comparing a type's qualified name with `System.Object`.
- The Roslyn consistency between a constructed member's overridden member and its original definition's overridden member. A `Symbol` carries `original` and `overridden` independently. So a constructed `y` can have `x` on its own override chain while its original definition overrides nothing, and then `IsEquivalentTo(x, y)` is false when `x` is a definition. This is why `EquivalentToOverrider` requires `DefinitionsUpTo(y, x)` when `x` is a definition: the symbols the climb passes before `x` must be their own original definitions.
- The symbol interfaces other than the fifteen in `SymbolInterface`: among them `IAssemblySymbol`, `IModuleSymbol`, `IPointerTypeSymbol`, `IDynamicTypeSymbol`, `IErrorTypeSymbol`, `IFunctionPointerTypeSymbol`, `IDiscardSymbol`, `IRangeVariableSymbol` and `IPreprocessingSymbol`. The type-test laws depend only on `Implements`, so they carry over, but the hierarchy facts are stated for the modelled subset.
