/**
 * ISymbolExt: kind tests on symbols and the equivalence test between a symbol
 * and a possibly constructed, possibly overriding other symbol.
 */
module Symbols {
  import opened Wrappers

  /** The concrete kinds of symbol. */
  datatype SymbolKind = Namespace | NamedType | ArrayType | TypeParameter
                      | Field | Property | Event | Method | Parameter | Local | Label | Alias

  /** The subset of Roslyn's symbol interfaces that the model's type tests can name. */
  datatype SymbolInterface =
    | ISymbol | INamespaceOrTypeSymbol | INamespaceSymbol | ITypeSymbol | INamedTypeSymbol
    | IArrayTypeSymbol | ITypeParameterSymbol | IFieldSymbol | IPropertySymbol | IEventSymbol
    | IMethodSymbol | IParameterSymbol | ILocalSymbol | ILabelSymbol | IAliasSymbol

  /** Whether a symbol of kind `kind` implements interface `t`. */
  predicate Implements(kind: SymbolKind, t: SymbolInterface)
  {
    match t
    case ISymbol => true
    case INamespaceOrTypeSymbol => kind in {Namespace, NamedType, ArrayType, TypeParameter}
    case INamespaceSymbol => kind == Namespace
    case ITypeSymbol => kind in {NamedType, ArrayType, TypeParameter}
    case INamedTypeSymbol => kind == NamedType
    case IArrayTypeSymbol => kind == ArrayType
    case ITypeParameterSymbol => kind == TypeParameter
    case IFieldSymbol => kind == Field
    case IPropertySymbol => kind == Property
    case IEventSymbol => kind == Event
    case IMethodSymbol => kind == Method
    case IParameterSymbol => kind == Parameter
    case ILocalSymbol => kind == Local
    case ILabelSymbol => kind == Label
    case IAliasSymbol => kind == Alias
  }

  /**
   * A symbol. `key` distinguishes otherwise alike symbols; `original` is the
   * original definition when the symbol is not its own (a constructed generic
   * member, say); `overridden` is the overridden property, event or method.
   */
  datatype Symbol = Symbol(
    key: nat,
    kind: SymbolKind,
    isDefinition: bool,
    original: Option<Symbol>,
    overridden: Option<Symbol>)

  function OriginalDefinition(s: Symbol): (d: Symbol)
    ensures d == s <==> s.original.None?
  {
    if s.original.Some? then
      assert s.original.value < s;
      s.original.value
    else s
  }

  /** `symbol is T`, which is false for null. */
  predicate Is(symbol: Option<Symbol>, t: SymbolInterface)
  {
    symbol.Some? && Implements(symbol.value.kind, t)
  }

  /** Interface `sub` extends `super`: every kind of symbol that implements `sub` implements `super`. */
  predicate Extends(sub: SymbolInterface, super: SymbolInterface)
  {
    forall k :: Implements(k, sub) ==> Implements(k, super)
  }

  /** `symbol.IsEither<T1, T2>()`. */
  function IsEither(symbol: Option<Symbol>, t1: SymbolInterface, t2: SymbolInterface): (r: bool)
    ensures symbol.None? ==> !r
    ensures Extends(t1, t2) ==> (r <==> Is(symbol, t2))
    ensures Extends(t2, t1) ==> (r <==> Is(symbol, t1))
  {
    Is(symbol, t1) || Is(symbol, t2)
  }

  /** `symbol.IsEither<T1, T2, T3>()`. */
  function IsEither3(symbol: Option<Symbol>, t1: SymbolInterface, t2: SymbolInterface, t3: SymbolInterface): (r: bool)
    ensures symbol.None? ==> !r
    ensures Extends(t1, t3) ==> (r <==> IsEither(symbol, t2, t3))
    ensures Extends(t1, t2) ==> (r <==> IsEither(symbol, t2, t3))
  {
    Is(symbol, t1) || Is(symbol, t2) || Is(symbol, t3)
  }

  /** The part of the interface hierarchy the type tests are usually asked about. */
  lemma InterfaceHierarchy()
    ensures forall t :: Extends(t, ISymbol)
    ensures Extends(INamedTypeSymbol, ITypeSymbol) && Extends(IArrayTypeSymbol, ITypeSymbol)
    ensures Extends(ITypeParameterSymbol, ITypeSymbol)
    ensures Extends(ITypeSymbol, INamespaceOrTypeSymbol) && Extends(INamespaceSymbol, INamespaceOrTypeSymbol)
    ensures !Extends(ITypeSymbol, INamedTypeSymbol) && !Extends(ITypeSymbol, IArrayTypeSymbol)
    ensures !Extends(ITypeSymbol, ITypeParameterSymbol)
    ensures !Extends(INamespaceOrTypeSymbol, ITypeSymbol) && !Extends(INamespaceOrTypeSymbol, INamespaceSymbol)
    ensures forall t :: t != ISymbol ==> !Extends(ISymbol, t)
    ensures forall t :: Extends(t, t)
  {
    assert Implements(ArrayType, ITypeSymbol) && !Implements(ArrayType, INamedTypeSymbol);
    assert Implements(NamedType, ITypeSymbol) && !Implements(NamedType, IArrayTypeSymbol);
    assert !Implements(NamedType, ITypeParameterSymbol);
    assert Implements(Namespace, INamespaceOrTypeSymbol) && !Implements(Namespace, ITypeSymbol);
    assert !Implements(NamedType, INamespaceSymbol);
    forall t | t != ISymbol ensures !Extends(ISymbol, t) {
      if t == IFieldSymbol {
        assert !Implements(Namespace, t);
      } else {
        assert !Implements(Field, t);
      }
    }
  }

  /** The order of the two interfaces does not matter, and naming one twice is the single test. */
  lemma IsEitherIsSymmetric(symbol: Option<Symbol>, t1: SymbolInterface, t2: SymbolInterface)
    ensures IsEither(symbol, t1, t2) == IsEither(symbol, t2, t1)
    ensures IsEither(symbol, t1, t1) == Is(symbol, t1)
  {
  }

  /** A sub-interface next to its super-interface adds nothing: `IsEither<INamedTypeSymbol, ITypeSymbol>` is `is ITypeSymbol`. */
  lemma IsEitherAbsorbsSubInterface(symbol: Option<Symbol>)
    ensures IsEither(symbol, INamedTypeSymbol, ITypeSymbol) == Is(symbol, ITypeSymbol)
    ensures IsEither(symbol, ITypeSymbol, INamespaceOrTypeSymbol) == Is(symbol, INamespaceOrTypeSymbol)
    ensures IsEither(symbol, INamespaceSymbol, ITypeSymbol) == Is(symbol, INamespaceOrTypeSymbol)
  {
    InterfaceHierarchy();
  }

  /** The three-way test is the two-way test or the third, and repeating an interface changes nothing. */
  lemma IsEither3ExtendsIsEither(symbol: Option<Symbol>, t1: SymbolInterface, t2: SymbolInterface, t3: SymbolInterface)
    ensures IsEither3(symbol, t1, t2, t3) == (IsEither(symbol, t1, t2) || Is(symbol, t3))
    ensures IsEither3(symbol, t1, t2, t2) == IsEither(symbol, t1, t2)
  {
  }

  /** The order of the three interfaces does not matter. */
  lemma IsEither3IsSymmetric(symbol: Option<Symbol>, t1: SymbolInterface, t2: SymbolInterface, t3: SymbolInterface)
    ensures IsEither3(symbol, t1, t2, t3) == IsEither3(symbol, t2, t1, t3)
    ensures IsEither3(symbol, t1, t2, t3) == IsEither3(symbol, t1, t3, t2)
  {
  }

  /** Every non-null symbol is an `ISymbol`; a property is an `IPropertySymbol` and nothing else but an `ISymbol`. */
  lemma IsEitherOnInterfaces(symbol: Option<Symbol>, t: SymbolInterface)
    ensures IsEither(symbol, ISymbol, t) == symbol.Some?
    ensures symbol.Some? && symbol.value.kind == Property ==>
      (IsEither(symbol, t, t) <==> t == ISymbol || t == IPropertySymbol)
  {
  }

  /** Only a property, event or method has an overridden member to climb to. */
  predicate HasOverridden(s: Symbol)
  {
    s.kind in {Property, Event, Method} && s.overridden.Some?
  }

  /** `x.IsEquivalentTo(y)` with neither null. Only `y` is ever replaced. */
  function Equivalent(x: Symbol, y: Symbol): (r: bool)
    ensures x == y ==> r
    ensures r ==> x == y || (x.isDefinition && y.original.Some?) || HasOverridden(y)
    decreases y
  {
    if x == y then true
    else if x.isDefinition && y != OriginalDefinition(y) then Equivalent(x, y.original.value)
    else if HasOverridden(y) then Equivalent(x, y.overridden.value)
    else false
  }

  function IsEquivalentTo(x: Option<Symbol>, y: Option<Symbol>): (r: bool)
    ensures x.None? || y.None? ==> !r
    ensures x.Some? && x == y ==> r
  {
    if x.None? || y.None? then false else Equivalent(x.value, y.value)
  }

  lemma EquivalentStepsToOriginal(x: Symbol, y: Symbol)
    requires x != y && x.isDefinition && y.original.Some?
    ensures Equivalent(x, y) == Equivalent(x, y.original.value)
  {
  }

  lemma EquivalentStepsToOverridden(x: Symbol, y: Symbol)
    requires x != y && !(x.isDefinition && y.original.Some?) && HasOverridden(y)
    ensures Equivalent(x, y) == Equivalent(x, y.overridden.value)
  {
  }

  /** The symbols `IsEquivalentTo(x, y)` compares `x` with, in order, for a given `x.IsDefinition`. */
  function ClimbPath(xIsDefinition: bool, y: Symbol): (path: seq<Symbol>)
    ensures |path| > 0 && path[0] == y
    decreases y
  {
    [y] + (if xIsDefinition && y.original.Some? then ClimbPath(xIsDefinition, y.original.value)
           else if HasOverridden(y) then ClimbPath(xIsDefinition, y.overridden.value)
           else [])
  }

  /** `x` is equivalent to `y` exactly when `x` is one of the symbols on `y`'s climb. */
  lemma {:induction false} EquivalentIffOnClimbPath(x: Symbol, y: Symbol)
    ensures Equivalent(x, y) <==> x in ClimbPath(x.isDefinition, y)
    decreases y
  {
    var path := ClimbPath(x.isDefinition, y);
    if x != y {
      if x.isDefinition && y.original.Some? {
        EquivalentIffOnClimbPath(x, y.original.value);
        assert path == [y] + ClimbPath(x.isDefinition, y.original.value);
      } else if HasOverridden(y) {
        EquivalentIffOnClimbPath(x, y.overridden.value);
        assert path == [y] + ClimbPath(x.isDefinition, y.overridden.value);
      } else {
        assert path == [y];
      }
    }
  }

  /** The members `y` overrides, nearest first. */
  function OverrideChain(y: Symbol): (chain: seq<Symbol>)
    ensures HasOverridden(y) ==> |chain| > 0 && chain[0] == y.overridden.value
    ensures !HasOverridden(y) ==> chain == []
    decreases y
  {
    if HasOverridden(y) then [y.overridden.value] + OverrideChain(y.overridden.value) else []
  }

  /**
   * Every symbol the climb from `y` passes before it reaches `x` along the
   * override chain is its own original definition.
   */
  predicate DefinitionsUpTo(y: Symbol, x: Symbol)
    decreases y
  {
    y == x || (y.original.None? && HasOverridden(y) && DefinitionsUpTo(y.overridden.value, x))
  }

  /**
   * A symbol is equivalent to every member that overrides it, directly or
   * through a chain of overrides, unless `x` is a definition and the climb
   * leaves the chain for an original definition before it reaches `x`.
   */
  lemma {:induction false} EquivalentToOverrider(x: Symbol, y: Symbol)
    requires x in OverrideChain(y)
    requires !x.isDefinition || DefinitionsUpTo(y, x)
    ensures Equivalent(x, y)
    decreases y
  {
    var next := y.overridden.value;
    assert OverrideChain(y) == [next] + OverrideChain(next);
    if x != y && x != next {
      assert x in OverrideChain(next);
      EquivalentToOverrider(x, next);
    }
  }

  /**
   * `Derived.M` overrides the constructed `Base<int>.M`, and `MoreDerived.M`
   * overrides `Derived.M`: the constructed member lies beyond `Derived.M`, so
   * the climb from `MoreDerived.M` still reaches it.
   */
  lemma OverrideOfConstructedBase()
    ensures
      var baseInt := Symbol(0, Method, false, Some(Symbol(3, Method, true, None, None)), None);
      var derived := Symbol(1, Method, true, None, Some(baseInt));
      var moreDerived := Symbol(2, Method, true, None, Some(derived));
      derived in OverrideChain(moreDerived) && DefinitionsUpTo(moreDerived, derived)
      && Equivalent(derived, moreDerived)
  {
  }

  /** The relation is not symmetric: an override is equivalent to its base, not the other way around. */
  lemma OnlyTheSecondChainIsClimbed()
    ensures
      var base := Symbol(0, Method, true, None, None);
      var derived := Symbol(1, Method, true, None, Some(base));
      IsEquivalentTo(Some(base), Some(derived)) && !IsEquivalentTo(Some(derived), Some(base))
  {
  }
}
