/**
 * QualifyEventAccessWalker: decides whether the code base writes instance
 * events as `this.E` (a Yes vote) or as a bare `E` (a No vote), over abstract
 * syntax. A bare `E` votes only as an argument, a statement-level invocation, a
 * statement-level conditional-access invocation or the receiver of a member
 * access; a bare `E` anywhere else (`E += h`, `var h = E;`) casts no vote.
 */
module QualifyEventAccess {
  import opened Wrappers
  import opened CodeStyle

  /** The shape of a member declaration, as far as its `static` test cares. */
  datatype MemberKind = BaseMethodDeclaration | BasePropertyDeclaration | EventFieldDeclaration | OtherMember

  datatype MemberDeclaration = MemberDeclaration(kind: MemberKind, hasStaticModifier: bool)

  /** The enclosing type declaration; `events` is what `TryFindEvent` finds by name in it. */
  datatype TypeDeclaration = TypeDeclaration(events: map<string, MemberDeclaration>)

  /** How an identifier sits in a member access `a.b`: as `a` or as `b`. */
  datatype MemberAccessRole = AsExpression | AsName

  /** The syntax node that is the identifier's parent, with the facts the walker tests about it. */
  datatype Parent =
    | ConditionalAccess(parentIsExpressionStatement: bool, whenNotNullIsInvocation: bool)
    | Argument
    | Invocation(parentIsExpressionStatement: bool)
    | MemberAccess(role: MemberAccessRole, expressionIsThis: bool)
    | OtherParent

  /**
   * An identifier occurrence. `inStaticContext`, `containingType`, `hasLocal`
   * and `hasParameter` are the answers of the Roslyn helpers `IsInStaticContext`,
   * `TryFirstAncestor<TypeDeclarationSyntax>`, `Scope.HasLocal` and
   * `Scope.HasParameter` for this occurrence.
   */
  datatype IdentifierName = IdentifierName(
    valueText: string,
    parent: Parent,
    inStaticContext: bool,
    containingType: Option<TypeDeclaration>,
    hasLocal: bool,
    hasParameter: bool)

  /** Declarations whose `Visit*` method this walker overrides. */
  datatype DeclarationKind = FieldDeclaration | ConstructorDeclaration | ClassDeclaration
                           | StructDeclaration | PropertyDeclaration | MethodDeclaration

  /** The syntax the walker descends through. */
  datatype Syntax =
    | Declaration(kind: DeclarationKind, hasStaticModifier: bool, members: seq<Syntax>)
    | Identifier(name: IdentifierName)
    | OtherNode(children: seq<Syntax>)

  /** A member counts as static unless it is a method, property or event field without `static`. */
  predicate IsStatic(candidate: MemberDeclaration): (r: bool)
    ensures !r <==> candidate.kind != OtherMember && !candidate.hasStaticModifier
  {
    match candidate.kind
    case BaseMethodDeclaration => candidate.hasStaticModifier
    case BasePropertyDeclaration => candidate.hasStaticModifier
    case EventFieldDeclaration => candidate.hasStaticModifier
    case OtherMember => true
  }

  /** The identifier names, outside a static context, a member of its type that is declared without `static`. */
  predicate IsInstanceEvent(node: IdentifierName): (r: bool)
    ensures r <==> && !node.inStaticContext && node.containingType.Some?
                   && node.valueText in node.containingType.value.events
                   && node.containingType.value.events[node.valueText].kind != OtherMember
                   && !node.containingType.value.events[node.valueText].hasStaticModifier
  {
    && !node.inStaticContext
    && node.containingType.Some?
    && node.valueText in node.containingType.value.events
    && !IsStatic(node.containingType.value.events[node.valueText])
  }

  /** The parent shapes in which a bare event name is a No vote. */
  predicate IsUnqualifiedUse(parent: Parent): (r: bool)
    ensures r <==> || parent == ConditionalAccess(true, true) || parent == Argument || parent == Invocation(true)
                   || (parent.MemberAccess? && parent.role == AsExpression)
    ensures r ==> parent != MemberAccess(AsName, true)
  {
    match parent
    case ConditionalAccess(statement, invocation) => statement && invocation
    case Argument => true
    case Invocation(statement) => statement
    case MemberAccess(role, _) => role == AsExpression
    case OtherParent => false
  }

  /** The vote `VisitIdentifierName` casts for `node`, if any: the `switch` on its parent. */
  function Vote(node: IdentifierName): (v: Option<CodeStyleResult>)
    ensures v == Some(Yes) || v == Some(No) || v == None
  {
    if IsUnqualifiedUse(node.parent) then
      if IsInstanceEvent(node) && !node.hasLocal && !node.hasParameter then Some(No) else None
    else if node.parent.MemberAccess? && node.parent.role == AsName && node.parent.expressionIsThis
            && IsInstanceEvent(node) then
      Some(Yes)
    else
      None
  }

  lemma VoteYesIffThisQualified(node: IdentifierName)
    ensures Vote(node) == Some(Yes) <==>
      node.parent == MemberAccess(AsName, true) && IsInstanceEvent(node)
  {
  }

  lemma VoteNoIffBareInstanceEvent(node: IdentifierName)
    ensures Vote(node) == Some(No) <==>
      && (|| node.parent == ConditionalAccess(true, true)
          || node.parent == Argument
          || node.parent == Invocation(true)
          || (node.parent.MemberAccess? && node.parent.role == AsExpression))
      && IsInstanceEvent(node) && !node.hasLocal && !node.hasParameter
  {
  }

  /** Only an instance event of the enclosing type, outside a static context, ever votes. */
  lemma OnlyInstanceEventsVote(node: IdentifierName)
    requires node.inStaticContext || node.containingType.None?
             || node.valueText !in node.containingType.value.events
             || IsStatic(node.containingType.value.events[node.valueText])
    ensures Vote(node) == None
  {
  }

  /** A local or parameter of the same name suppresses the No vote but not the Yes vote of `this.E`. */
  lemma ShadowingSuppressesOnlyNo(node: IdentifierName)
    requires node.hasLocal || node.hasParameter
    ensures Vote(node) != Some(No)
    ensures Vote(node.(hasLocal := false, hasParameter := false)) == Some(Yes) ==> Vote(node) == Some(Yes)
  {
  }

  /**
   * Whether the walker descends into a declaration: `VisitFieldDeclaration` never
   * does and does not test for null; the other overrides throw on null and
   * descend only into declarations without the `static` modifier.
   */
  function DescendInto(kind: DeclarationKind, node: Option<Syntax>): (r: Result<bool, ArgumentError>)
    requires node.Some? ==> node.value.Declaration? && node.value.kind == kind
    ensures kind == FieldDeclaration ==> r == Success(false)
    ensures kind != FieldDeclaration && node.None? ==> r.Failure?
    ensures r == Success(true) <==> kind != FieldDeclaration && node.Some? && !node.value.hasStaticModifier
  {
    if kind == FieldDeclaration then Success(false)
    else if node.None? then Failure(ArgumentNull("node"))
    else Success(!node.value.hasStaticModifier)
  }

  function VoteSeq(v: Option<CodeStyleResult>): seq<CodeStyleResult>
  {
    if v.Some? then [v.value] else []
  }

  /** The `Update` arguments a visit of `node` issues, in depth-first order. */
  function Votes(node: Syntax): seq<CodeStyleResult>
    decreases node, 1
  {
    match node
    case Declaration(kind, _, members) =>
      if DescendInto(kind, Some(node)) == Success(true) then VotesAll(members) else []
    case Identifier(name) => VoteSeq(Vote(name))
    case OtherNode(children) => VotesAll(children)
  }

  function VotesAll(nodes: seq<Syntax>): seq<CodeStyleResult>
    decreases nodes, 0
  {
    if nodes == [] then [] else Votes(nodes[0]) + VotesAll(nodes[1..])
  }

  lemma {:induction false} VotesAreVotes(node: Syntax)
    ensures OnlyVotes(Votes(node))
    decreases node, 1
  {
    match node
    case Declaration(kind, _, members) =>
      if DescendInto(kind, Some(node)) == Success(true) {
        VotesAllAreVotes(members);
      }
    case Identifier(name) =>
    case OtherNode(children) =>
      VotesAllAreVotes(children);
  }

  lemma {:induction false} VotesAllAreVotes(nodes: seq<Syntax>)
    ensures OnlyVotes(VotesAll(nodes))
    decreases nodes, 0
  {
    if nodes != [] {
      VotesAreVotes(nodes[0]);
      VotesAllAreVotes(nodes[1..]);
      var a, b := Votes(nodes[0]), VotesAll(nodes[1..]);
      forall i | 0 <= i < |a + b| ensures (a + b)[i] == Yes || (a + b)[i] == No {
        if i >= |a| {
          assert (a + b)[i] == b[i - |a|];
        }
      }
    }
  }

  /** Nothing under a field declaration, or under a static constructor, type, property or method, votes. */
  lemma SkippedDeclarationsCastNoVote(kind: DeclarationKind, hasStaticModifier: bool, members: seq<Syntax>)
    requires kind == FieldDeclaration || hasStaticModifier
    ensures Votes(Declaration(kind, hasStaticModifier, members)) == []
  {
  }

  lemma {:induction false} VotesAllSnoc(nodes: seq<Syntax>, i: nat)
    requires i < |nodes|
    ensures VotesAll(nodes[..i + 1]) == VotesAll(nodes[..i]) + Votes(nodes[i])
  {
    if i == 0 {
      assert nodes[..1][1..] == [];
      assert nodes[..0] == [];
    } else {
      VotesAllSnoc(nodes[1..], i - 1);
      assert nodes[..i + 1][1..] == nodes[1..][..i];
      assert nodes[..i][1..] == nodes[1..][..i - 1];
      assert nodes[1..][i - 1] == nodes[i];
    }
  }

  /**
   * The walker's verdict over one tree is Yes, No or Mixed exactly as `this.E`,
   * bare `E`, or both occur among the votes; NotFound when none does.
   */
  lemma TreeVerdictIsSummary(tree: Tree<Syntax>)
    requires !IsExcluded(tree.filePath) && tree.root.Some?
    ensures TreeResult(tree, Votes) ==
      Summary(Yes in Votes(tree.root.value), No in Votes(tree.root.value))
  {
    VotesAreVotes(tree.root.value);
    FreshFoldIsSummary(Votes(tree.root.value));
  }

  method VisitIdentifierName(walker: CompilationStyleWalker, node: Option<IdentifierName>)
    returns (outcome: Outcome<ArgumentError>)
    modifies walker
    ensures node.None? ==> outcome == Fail(ArgumentNull("node")) && walker.result == old(walker.result)
    ensures node.Some? ==> outcome == Pass && walker.result == Fold(old(walker.result), VoteSeq(Vote(node.value)))
  {
    if node.None? {
      return Fail(ArgumentNull("node"));
    }
    var vote := Vote(node.value);
    if vote.Some? {
      walker.Update(vote.value);
    }
    return Pass;
  }

  /** The syntax walker with this walker's overrides, from `node` down. */
  method Walk(walker: CompilationStyleWalker, node: Syntax)
    modifies walker
    ensures walker.result == Fold(old(walker.result), Votes(node))
    decreases node, 1
  {
    match node
    case Identifier(name) =>
      var _ := VisitIdentifierName(walker, Some(name));
    case Declaration(kind, _, members) =>
      var descend := DescendInto(kind, Some(node));
      if descend == Success(true) {
        WalkAll(walker, members);
      }
    case OtherNode(children) =>
      WalkAll(walker, children);
  }

  method WalkAll(walker: CompilationStyleWalker, nodes: seq<Syntax>)
    modifies walker
    ensures walker.result == Fold(old(walker.result), VotesAll(nodes))
    decreases nodes, 0
  {
    for i := 0 to |nodes|
      invariant walker.result == Fold(old(walker.result), VotesAll(nodes[..i]))
    {
      VotesAllSnoc(nodes, i);
      FoldAppend(old(walker.result), VotesAll(nodes[..i]), Votes(nodes[i]));
      Walk(walker, nodes[i]);
    }
    assert nodes[..|nodes|] == nodes;
  }

  /**
   * Check `containing` first, then the other trees of `compilation`, with a
   * freshly borrowed walker: the answer is the first tree's own verdict that is
   * not NotFound, in that order.
   */
  method Check(containing: Option<Tree<Syntax>>, compilation: Option<Compilation<Syntax>>)
    returns (r: Result<CodeStyleResult, ArgumentError>)
    ensures containing.None? ==> r == Failure(ArgumentNull("containing"))
    ensures containing.Some? && compilation.None? ==> r == Failure(ArgumentNull("compilation"))
    ensures containing.Some? && compilation.Some? ==>
      r == Success(FirstFound([containing.value] + Others(containing.value, compilation.value.syntaxTrees), Votes))
  {
    var walker := new CompilationStyleWalker();
    r := walker.CheckCore(containing, compilation, Votes);
    if containing.Some? && compilation.Some? {
      CheckCoreFromNotFound(containing.value, compilation.value, Votes);
    }
  }
}
