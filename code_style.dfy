/**
 * The code-style vote that a CompilationStyleWalker accumulates while it walks
 * syntax trees, and the scan that walks the containing tree first and then the
 * other trees of the compilation.
 */
module CodeStyle {
  import opened Wrappers

  /** How a style rule is used in the code seen so far. */
  datatype CodeStyleResult = NotFound | Yes | No | Mixed

  /** The value the `result` field takes when `Update(v)` runs while it holds `r`. */
  function Updated(r: CodeStyleResult, v: CodeStyleResult): (u: CodeStyleResult)
    ensures r == NotFound ==> u == v
    ensures u == NotFound <==> r == NotFound && v == NotFound
    ensures r != NotFound ==> u == r || u == Mixed
    ensures u == Mixed <==> r == Mixed || (r == NotFound && v == Mixed) || (r == Yes && v == No) || (r == No && v == Yes)
  {
    match r
    case NotFound => v
    case Yes => if v == No then Mixed else Yes
    case No => if v == Yes then Mixed else No
    case Mixed => Mixed
  }

  /** The value of `result` after `Update(vs[0]); ...; Update(vs[|vs| - 1])` from `r`. */
  function Fold(r: CodeStyleResult, vs: seq<CodeStyleResult>): CodeStyleResult
    decreases |vs|
  {
    if vs == [] then r else Fold(Updated(r, vs[0]), vs[1..])
  }

  /** The result that records which of the two votes have occurred. */
  function Summary(sawYes: bool, sawNo: bool): (r: CodeStyleResult)
    ensures r == NotFound <==> !sawYes && !sawNo
    ensures r == Mixed <==> sawYes && sawNo
  {
    if sawYes && sawNo then Mixed
    else if sawYes then Yes
    else if sawNo then No
    else NotFound
  }

  /** A sequence of the votes a walker actually casts. */
  predicate OnlyVotes(vs: seq<CodeStyleResult>)
  {
    forall i :: 0 <= i < |vs| ==> vs[i] == Yes || vs[i] == No
  }

  lemma UpdateFromNotFound(v: CodeStyleResult)
    ensures Updated(NotFound, v) == v
  {
  }

  lemma UpdateFromYesOrNo(r: CodeStyleResult, v: CodeStyleResult)
    requires r == Yes || r == No
    ensures Updated(r, v) == (if (r == Yes && v == No) || (r == No && v == Yes) then Mixed else r)
  {
  }

  lemma {:induction false} MixedIsAbsorbing(vs: seq<CodeStyleResult>)
    ensures Fold(Mixed, vs) == Mixed
    decreases |vs|
  {
    if vs != [] {
      MixedIsAbsorbing(vs[1..]);
    }
  }

  lemma UpdateIsIdempotent(r: CodeStyleResult, v: CodeStyleResult)
    ensures Updated(Updated(r, v), v) == Updated(r, v)
  {
  }

  /** Update is not commutative: from Yes, Update(Mixed) keeps Yes, while from Mixed, Update(Yes) keeps Mixed. */
  lemma UpdateIsNotCommutative()
    ensures Updated(Updated(NotFound, Yes), Mixed) != Updated(Updated(NotFound, Mixed), Yes)
  {
  }

  lemma {:induction false} FoldAppend(r: CodeStyleResult, a: seq<CodeStyleResult>, b: seq<CodeStyleResult>)
    ensures Fold(r, a + b) == Fold(Fold(r, a), b)
    decreases |a|
  {
    if a == [] {
      assert a + b == b;
    } else {
      assert (a + b)[1..] == a[1..] + b;
      FoldAppend(Updated(r, a[0]), a[1..], b);
    }
  }

  /** Once something was found, no further updates make the result NotFound again. */
  lemma {:induction false} FoundStaysFound(r: CodeStyleResult, vs: seq<CodeStyleResult>)
    requires r != NotFound
    ensures Fold(r, vs) != NotFound
    decreases |vs|
  {
    if vs != [] {
      FoundStaysFound(Updated(r, vs[0]), vs[1..]);
    }
  }

  /**
   * For votes drawn from {Yes, No}, the final result depends only on which of
   * the two votes occurred, not on their order or their number.
   */
  lemma {:induction false} FoldRecordsOccurrences(sawYes: bool, sawNo: bool, vs: seq<CodeStyleResult>)
    requires OnlyVotes(vs)
    ensures Fold(Summary(sawYes, sawNo), vs) == Summary(sawYes || Yes in vs, sawNo || No in vs)
    decreases |vs|
  {
    if vs != [] {
      assert Updated(Summary(sawYes, sawNo), vs[0]) == Summary(sawYes || vs[0] == Yes, sawNo || vs[0] == No);
      assert OnlyVotes(vs[1..]) by {
        forall i | 0 <= i < |vs[1..]| ensures vs[1..][i] == Yes || vs[1..][i] == No {
          assert vs[1..][i] == vs[i + 1];
        }
      }
      FoldRecordsOccurrences(sawYes || vs[0] == Yes, sawNo || vs[0] == No, vs[1..]);
      assert vs == [vs[0]] + vs[1..];
      assert (Yes in vs) == (vs[0] == Yes || Yes in vs[1..]);
      assert (No in vs) == (vs[0] == No || No in vs[1..]);
    }
  }

  /** A fresh walker's verdict on a sequence of votes. */
  lemma FreshFoldIsSummary(vs: seq<CodeStyleResult>)
    requires OnlyVotes(vs)
    ensures Fold(NotFound, vs) == Summary(Yes in vs, No in vs)
  {
    FoldRecordsOccurrences(false, false, vs);
  }

  /** Two vote sequences with the same votes give the same verdict, whatever their order. */
  lemma {:induction false} FoldDependsOnlyOnOccurrences(vs: seq<CodeStyleResult>, ws: seq<CodeStyleResult>)
    requires OnlyVotes(vs) && OnlyVotes(ws)
    requires (Yes in vs <==> Yes in ws) && (No in vs <==> No in ws)
    ensures Fold(NotFound, vs) == Fold(NotFound, ws)
  {
    FreshFoldIsSummary(vs);
    FreshFoldIsSummary(ws);
  }

  /** A syntax tree of a compilation; `id` stands for the tree's reference identity. */
  datatype Tree<R> = Tree(id: nat, filePath: string, root: Option<R>)

  datatype Compilation<R> = Compilation(syntaxTrees: seq<Tree<R>>)

  /** Ordinal suffix test, as `string.EndsWith(suffix, StringComparison.Ordinal)`. */
  predicate EndsWith(s: string, suffix: string)
  {
    |suffix| <= |s| && s[|s| - |suffix|..] == suffix
  }

  /** A string ends with `suffix` exactly when it is some stem followed by `suffix`. */
  lemma EndsWithIffStem(s: string, suffix: string)
    ensures EndsWith(s, suffix) <==> exists stem :: s == stem + suffix
  {
    if EndsWith(s, suffix) {
      var stem := s[..|s| - |suffix|];
      assert s == stem + suffix;
    }
    forall stem | s == stem + suffix ensures EndsWith(s, suffix) {
      assert s[|s| - |suffix|..] == suffix;
    }
  }

  /** Generated files are not part of the style vote: exactly the paths ending in `.g.i.cs` or `.g.cs`. */
  predicate IsExcluded(filePath: string): (r: bool)
    ensures r <==> (exists stem :: filePath == stem + ".g.i.cs") || (exists stem :: filePath == stem + ".g.cs")
  {
    EndsWithIffStem(filePath, ".g.i.cs");
    EndsWithIffStem(filePath, ".g.cs");
    EndsWith(filePath, ".g.i.cs") || EndsWith(filePath, ".g.cs")
  }

  lemma HandWrittenFileIsNotExcluded()
    ensures !IsExcluded("Foo.cs") && !IsExcluded("Foo.i.cs") && IsExcluded("Foo.g.cs") && IsExcluded("Foo.g.i.cs")
  {
    assert "Foo.cs"[6 - 5..] == "oo.cs";
    assert "Foo.i.cs"[8 - 7..] == "oo.i.cs";
    assert "Foo.i.cs"[8 - 5..] == ".i.cs";
    assert "Foo.g.cs"[8 - 5..] == ".g.cs";
    assert "Foo.g.i.cs"[10 - 7..] == ".g.i.cs";
  }

  /** What one `Check(tree)` returns, and the value of `result` afterwards. */
  datatype Step = Step(found: CodeStyleResult, field: CodeStyleResult)

  function CheckTree<R(==)>(r: CodeStyleResult, tree: Tree<R>, visit: R -> seq<CodeStyleResult>): (s: Step)
    ensures IsExcluded(tree.filePath) || tree.root.None? ==> s == Step(NotFound, r)
    ensures s.found == NotFound || s.found == s.field
  {
    if IsExcluded(tree.filePath) then Step(NotFound, r)
    else if tree.root.None? then Step(NotFound, r)
    else
      var f := Fold(r, visit(tree.root.value));
      Step(f, f)
  }

  /** A tree the loop leaves alone: the containing tree itself, a generated file, or a tree without a root. */
  predicate Skipped<R>(containing: Tree<R>, tree: Tree<R>)
  {
    tree.id == containing.id || IsExcluded(tree.filePath) || tree.root.None?
  }

  /** The loop over the compilation's trees, skipping the containing one, from field value `r`. */
  function ScanOthers<R(==)>(r: CodeStyleResult, containing: Tree<R>, trees: seq<Tree<R>>,
                         visit: R -> seq<CodeStyleResult>): (s: Step)
    ensures s.found == NotFound || s.found == s.field
    ensures (forall i :: 0 <= i < |trees| ==> Skipped(containing, trees[i])) ==> s == Step(NotFound, r)
    decreases |trees|
  {
    if trees == [] then Step(NotFound, r)
    else
      assert forall i :: 0 <= i < |trees[1..]| ==> trees[1..][i] == trees[i + 1];
      if trees[0].id == containing.id then ScanOthers(r, containing, trees[1..], visit)
      else
        var s := CheckTree(r, trees[0], visit);
        if s.found != NotFound then s else ScanOthers(s.field, containing, trees[1..], visit)
  }

  /** What `CheckCore(containing, compilation)` returns from field value `r`, and the field afterwards. */
  function CheckCoreStep<R(==)>(r: CodeStyleResult, containing: Tree<R>, compilation: Compilation<R>,
                            visit: R -> seq<CodeStyleResult>): (s: Step)
    ensures s.found == NotFound || s.found == s.field
    ensures IsExcluded(containing.filePath) || containing.root.None? ==>
      s == ScanOthers(r, containing, compilation.syntaxTrees, visit)
    ensures (IsExcluded(containing.filePath) || containing.root.None?) &&
            (forall i :: 0 <= i < |compilation.syntaxTrees| ==> Skipped(containing, compilation.syntaxTrees[i])) ==>
      s == Step(NotFound, r)
  {
    var s := CheckTree(r, containing, visit);
    if s.found != NotFound then s else ScanOthers(s.field, containing, compilation.syntaxTrees, visit)
  }

  /** The verdict of one tree alone, as a freshly cleared walker gives it. */
  function TreeResult<R(==)>(tree: Tree<R>, visit: R -> seq<CodeStyleResult>): CodeStyleResult
  {
    if IsExcluded(tree.filePath) || tree.root.None? then NotFound
    else Fold(NotFound, visit(tree.root.value))
  }

  /** The trees other than `containing`, in their order. */
  function Others<R(==)>(containing: Tree<R>, trees: seq<Tree<R>>): (r: seq<Tree<R>>)
    ensures forall i :: 0 <= i < |r| ==> r[i] in trees && r[i].id != containing.id
    ensures forall i :: 0 <= i < |trees| && trees[i].id != containing.id ==> trees[i] in r
    ensures |r| <= |trees|
    decreases |trees|
  {
    if trees == [] then []
    else if trees[0].id == containing.id then Others(containing, trees[1..])
    else [trees[0]] + Others(containing, trees[1..])
  }

  /** Skipping the containing tree keeps the order: the other trees of `a + b` are those of `a`, then those of `b`. */
  lemma {:induction false} OthersAppend<R>(containing: Tree<R>, a: seq<Tree<R>>, b: seq<Tree<R>>)
    ensures Others(containing, a + b) == Others(containing, a) + Others(containing, b)
    decreases |a|
  {
    if a == [] {
      assert a + b == b;
    } else {
      assert (a + b)[1..] == a[1..] + b;
      OthersAppend(containing, a[1..], b);
    }
  }

  /** The verdict of the first tree whose own verdict is not NotFound. */
  function FirstFound<R(==)>(trees: seq<Tree<R>>, visit: R -> seq<CodeStyleResult>): (r: CodeStyleResult)
    ensures r == NotFound <==> forall i :: 0 <= i < |trees| ==> TreeResult(trees[i], visit) == NotFound
    ensures r != NotFound ==> exists i :: && 0 <= i < |trees| && TreeResult(trees[i], visit) == r
                                         && forall j :: 0 <= j < i ==> TreeResult(trees[j], visit) == NotFound
    decreases |trees|
  {
    if trees == [] then NotFound
    else if TreeResult(trees[0], visit) != NotFound then TreeResult(trees[0], visit)
    else
      var rest := FirstFound(trees[1..], visit);
      assert forall i :: 0 <= i < |trees[1..]| ==> trees[1..][i] == trees[i + 1];
      assert rest != NotFound ==> exists i :: 1 <= i < |trees| && TreeResult(trees[i], visit) == rest
                                            && forall j :: 0 <= j < i ==> TreeResult(trees[j], visit) == NotFound;
      rest
  }

  /**
   * Starting from NotFound, the accumulation of `result` across trees is
   * harmless: each tree reached is checked as if by a fresh walker.
   */
  lemma {:induction false} ScanOthersFromNotFound<R>(containing: Tree<R>, trees: seq<Tree<R>>,
                                                      visit: R -> seq<CodeStyleResult>)
    ensures ScanOthers(NotFound, containing, trees, visit).found == FirstFound(Others(containing, trees), visit)
    ensures ScanOthers(NotFound, containing, trees, visit).found == NotFound ==>
      ScanOthers(NotFound, containing, trees, visit).field == NotFound
    decreases |trees|
  {
    if trees != [] {
      ScanOthersFromNotFound(containing, trees[1..], visit);
      if trees[0].id != containing.id {
        var rest := Others(containing, trees[1..]);
        assert Others(containing, trees) == [trees[0]] + rest;
        assert ([trees[0]] + rest)[1..] == rest;
      }
    }
  }

  /**
   * With the field at NotFound on entry (a borrowed walker is cleared), CheckCore
   * answers with the first verdict that is not NotFound among the containing
   * tree and then the other trees in order, and NotFound when there is none.
   */
  lemma CheckCoreFromNotFound<R>(containing: Tree<R>, compilation: Compilation<R>,
                                 visit: R -> seq<CodeStyleResult>)
    ensures CheckCoreStep(NotFound, containing, compilation, visit).found ==
      FirstFound([containing] + Others(containing, compilation.syntaxTrees), visit)
  {
    var others := Others(containing, compilation.syntaxTrees);
    ScanOthersFromNotFound(containing, compilation.syntaxTrees, visit);
    assert ([containing] + others)[1..] == others;
  }

  /** The walker state shared by the code-style walkers: the accumulated `result`. */
  class CompilationStyleWalker {
    var result: CodeStyleResult

    constructor ()
      ensures result == NotFound
    {
      result := NotFound;
    }

    method Update(newValue: CodeStyleResult)
      modifies this
      ensures result == Updated(old(result), newValue)
      ensures old(result) == NotFound ==> result == newValue
      ensures old(result) == Mixed ==> result == Mixed
      ensures old(result) == Yes ==> result == (if newValue == No then Mixed else Yes)
      ensures old(result) == No ==> result == (if newValue == Yes then Mixed else No)
    {
      match result
      case NotFound =>
        result := newValue;
      case Yes =>
        if newValue == No {
          result := Mixed;
        }
      case No =>
        if newValue == Yes {
          result := Mixed;
        }
      case Mixed =>
    }

    method Clear()
      modifies this
      ensures result == NotFound
    {
      result := NotFound;
    }

    /** The `Update` calls a visit of one root issues, in order. */
    method VisitRoot(votes: seq<CodeStyleResult>)
      modifies this
      ensures result == Fold(old(result), votes)
    {
      for i := 0 to |votes|
        invariant result == Fold(old(result), votes[..i])
      {
        FoldAppend(old(result), votes[..i], [votes[i]]);
        assert votes[..i + 1] == votes[..i] + [votes[i]];
        Update(votes[i]);
      }
      assert votes[..|votes|] == votes;
    }

    method Check<R(==)>(tree: Tree<R>, visit: R -> seq<CodeStyleResult>) returns (found: CodeStyleResult)
      modifies this
      ensures Step(found, result) == CheckTree(old(result), tree, visit)
    {
      if IsExcluded(tree.filePath) {
        return NotFound;
      }
      if tree.root.Some? {
        VisitRoot(visit(tree.root.value));
        return result;
      }
      return NotFound;
    }

    /**
     * Walk `containing`, then every other tree of `compilation`, and answer with
     * the first result that is not NotFound. `visit` is the concrete walker's
     * visitor: the `Update` arguments a visit of a root issues.
     */
    method CheckCore<R(==)>(containing: Option<Tree<R>>, compilation: Option<Compilation<R>>,
                        visit: R -> seq<CodeStyleResult>) returns (r: Result<CodeStyleResult, ArgumentError>)
      modifies this
      ensures containing.None? ==> r == Failure(ArgumentNull("containing")) && result == old(result)
      ensures containing.Some? && compilation.None? ==>
        r == Failure(ArgumentNull("compilation")) && result == old(result)
      ensures containing.Some? && compilation.Some? ==>
        var s := CheckCoreStep(old(result), containing.value, compilation.value, visit);
        r == Success(s.found) && result == s.field
    {
      if containing.None? {
        return Failure(ArgumentNull("containing"));
      }
      if compilation.None? {
        return Failure(ArgumentNull("compilation"));
      }
      var c := containing.value;
      var trees := compilation.value.syntaxTrees;
      var containingResult := Check(c, visit);
      if containingResult != NotFound {
        return Success(containingResult);
      }
      ghost var goal := CheckCoreStep(old(result), c, compilation.value, visit);
      var i := 0;
      while i < |trees|
        invariant 0 <= i <= |trees|
        invariant ScanOthers(result, c, trees[i..], visit) == goal
      {
        var syntaxTree := trees[i];
        assert trees[i..][1..] == trees[i + 1..];
        if syntaxTree.id == c.id {
          i := i + 1;
          continue;
        }
        var syntaxTreeResult := Check(syntaxTree, visit);
        if syntaxTreeResult != NotFound {
          return Success(syntaxTreeResult);
        }
        i := i + 1;
      }
      return Success(NotFound);
    }
  }
}
