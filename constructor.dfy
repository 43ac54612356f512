/**
 * Constructor.TryFindDefault: the first parameterless constructor with exactly
 * one declaration, in the given type or, for a recursive search, in the nearest
 * base type below `System.Object` that has one.
 */
module Constructors {
  import opened Wrappers

  /** A named type, by its index in a type table. */
  type TypeId = nat

  datatype Search = TopLevel | Recursive

  /** A constructor symbol: its parameter count, its number of declaring syntax references, its containing type. */
  datatype MethodSymbol = MethodSymbol(key: nat, parameterCount: nat, declaringSyntaxReferences: nat,
                                       containingType: TypeId)

  datatype NamedType = NamedType(qualifiedName: string, constructors: seq<MethodSymbol>, baseType: Option<TypeId>)

  /**
   * The named types of a compilation. A base type always has a smaller index
   * than the type deriving from it, which makes every base chain finite.
   */
  predicate WellFormed(types: seq<NamedType>)
  {
    forall id :: 0 <= id < |types| && types[id].baseType.Some? ==> types[id].baseType.value < id
  }

  predicate InTable(types: seq<NamedType>, t: Option<TypeId>)
  {
    t.Some? ==> t.value < |types|
  }

  /** The comparison with `QualifiedType.System.Object`. */
  predicate IsSystemObject(t: NamedType)
  {
    t.qualifiedName == "System.Object"
  }

  predicate IsDefaultCandidate(c: MethodSymbol, t: TypeId)
  {
    c.parameterCount == 0 && c.declaringSyntaxReferences == 1 && c.containingType == t
  }

  /** The index of the first candidate at or after `from`, in enumeration order. */
  function FirstCandidateFrom(ctors: seq<MethodSymbol>, t: TypeId, from: nat): (r: Option<nat>)
    requires from <= |ctors|
    ensures r.Some? ==> from <= r.value < |ctors| && IsDefaultCandidate(ctors[r.value], t)
    ensures r.Some? ==> forall j :: from <= j < r.value ==> !IsDefaultCandidate(ctors[j], t)
    ensures r.None? ==> forall j :: from <= j < |ctors| ==> !IsDefaultCandidate(ctors[j], t)
    decreases |ctors| - from
  {
    if from == |ctors| then None
    else if IsDefaultCandidate(ctors[from], t) then Some(from)
    else FirstCandidateFrom(ctors, t, from + 1)
  }

  function FirstCandidate(ctors: seq<MethodSymbol>, t: TypeId): Option<nat>
  {
    FirstCandidateFrom(ctors, t, 0)
  }

  predicate HasCandidate(types: seq<NamedType>, t: TypeId)
    requires t < |types|
  {
    FirstCandidate(types[t].constructors, t).Some?
  }

  /** The constructor `TryFindDefault` returns, or None when it returns false. */
  function FindDefault(types: seq<NamedType>, start: Option<TypeId>, search: Search): (r: Option<MethodSymbol>)
    requires WellFormed(types) && InTable(types, start)
    ensures start.None? || IsSystemObject(types[start.value]) ==> r.None?
    ensures r.Some? ==> r.value.parameterCount == 0 && r.value.declaringSyntaxReferences == 1
    ensures r.Some? ==> r.value.containingType < |types| && !IsSystemObject(types[r.value.containingType])
                        && r.value in types[r.value.containingType].constructors
    ensures r.Some? && search == TopLevel ==> start == Some(r.value.containingType)
    decreases if start.Some? then start.value + 1 else 0
  {
    if start.None? || IsSystemObject(types[start.value]) then None
    else
      var t := start.value;
      var first := FirstCandidate(types[t].constructors, t);
      if first.Some? then Some(types[t].constructors[first.value])
      else if search == TopLevel then None
      else FindDefault(types, types[t].baseType, search)
  }

  /**
   * The types the search examines when none of them has a candidate, nearest
   * first: each is the base type of the one before, and a recursive search
   * stops where the next base type is null or `System.Object`.
   */
  function SearchChain(types: seq<NamedType>, start: Option<TypeId>, search: Search): (chain: seq<TypeId>)
    requires WellFormed(types) && InTable(types, start)
    ensures forall k :: 0 <= k < |chain| ==> chain[k] < |types| && !IsSystemObject(types[chain[k]])
    ensures search == TopLevel ==> |chain| <= 1
    ensures |chain| == 0 <==> start.None? || IsSystemObject(types[start.value])
    ensures |chain| > 0 ==> start == Some(chain[0])
    ensures forall k :: 0 <= k < |chain| - 1 ==> types[chain[k]].baseType == Some(chain[k + 1])
    ensures search == Recursive && |chain| > 0 ==>
      var next := types[chain[|chain| - 1]].baseType;
      next.None? || IsSystemObject(types[next.value])
    decreases if start.Some? then start.value + 1 else 0
  {
    if start.None? || IsSystemObject(types[start.value]) then []
    else if search == TopLevel then [start.value]
    else [start.value] + SearchChain(types, types[start.value].baseType, search)
  }

  /** The nearest type on the chain that has a candidate supplies the result: its first candidate. */
  lemma {:induction false} ClosestMatchWins(types: seq<NamedType>, start: Option<TypeId>, search: Search, k: nat)
    requires WellFormed(types) && InTable(types, start)
    requires k < |SearchChain(types, start, search)|
    requires HasCandidate(types, SearchChain(types, start, search)[k])
    requires forall j :: 0 <= j < k ==> !HasCandidate(types, SearchChain(types, start, search)[j])
    ensures var t := SearchChain(types, start, search)[k];
      FindDefault(types, start, search) == Some(types[t].constructors[FirstCandidate(types[t].constructors, t).value])
    decreases k
  {
    var chain := SearchChain(types, start, search);
    if k > 0 {
      var s := start.value;
      assert !HasCandidate(types, chain[0]);
      assert search == Recursive;
      var rest := SearchChain(types, types[s].baseType, search);
      assert chain == [s] + rest;
      forall j | 0 <= j < k - 1 ensures !HasCandidate(types, rest[j]) {
        assert rest[j] == chain[j + 1];
      }
      assert rest[k - 1] == chain[k];
      ClosestMatchWins(types, types[s].baseType, search, k - 1);
    }
  }

  /** When no type on the chain has a candidate, the search fails. */
  lemma {:induction false} NoMatchOnChain(types: seq<NamedType>, start: Option<TypeId>, search: Search)
    requires WellFormed(types) && InTable(types, start)
    requires forall k :: 0 <= k < |SearchChain(types, start, search)| ==>
      !HasCandidate(types, SearchChain(types, start, search)[k])
    ensures FindDefault(types, start, search).None?
    decreases if start.Some? then start.value + 1 else 0
  {
    var chain := SearchChain(types, start, search);
    if start.Some? && !IsSystemObject(types[start.value]) {
      assert !HasCandidate(types, chain[0]);
      if search == Recursive {
        var rest := SearchChain(types, types[start.value].baseType, search);
        assert chain == [start.value] + rest;
        forall k | 0 <= k < |rest| ensures !HasCandidate(types, rest[k]) {
          assert rest[k] == chain[k + 1];
        }
        NoMatchOnChain(types, types[start.value].baseType, search);
      }
    }
  }

  /** A top-level search looks only at the starting type. */
  lemma TopLevelExaminesOnlyStart(types: seq<NamedType>, t: TypeId)
    requires WellFormed(types) && t < |types| && !IsSystemObject(types[t])
    ensures FindDefault(types, Some(t), TopLevel) ==
      (if HasCandidate(types, t) then Some(types[t].constructors[FirstCandidate(types[t].constructors, t).value])
       else None)
  {
  }

  method TryFindDefault(types: seq<NamedType>, start: Option<TypeId>, search: Search)
    returns (found: bool, result: Option<MethodSymbol>)
    requires WellFormed(types) && InTable(types, start)
    ensures found <==> result.Some?
    ensures result == FindDefault(types, start, search)
  {
    result := None;
    var t := start;
    while t.Some? && !IsSystemObject(types[t.value])
      invariant InTable(types, t)
      invariant FindDefault(types, t, search) == FindDefault(types, start, search)
      decreases if t.Some? then t.value + 1 else 0
    {
      var ctors := types[t.value].constructors;
      for i := 0 to |ctors|
        invariant forall j :: 0 <= j < i ==> !IsDefaultCandidate(ctors[j], t.value)
      {
        var candidate := ctors[i];
        if candidate.parameterCount == 0 && candidate.declaringSyntaxReferences == 1 &&
           candidate.containingType == t.value {
          result := Some(candidate);
          return true, result;
        }
      }
      if search == TopLevel {
        return false, None;
      }
      t := types[t.value].baseType;
    }
    return false, None;
  }
}
