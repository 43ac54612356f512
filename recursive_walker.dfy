/**
 * RecursiveWalker: an execution walker that never expands a target inline and
 * instead records qualifying targets, in call order, for deferred walking.
 */
module RecursiveWalkers {
  import opened Wrappers
  import opened Symbols

  /** A syntax node, by identity. */
  type Node = nat

  /** What a target resolution found: the node asked about, the symbol, and its declaration if any. */
  datatype Target = Target(source: Node, symbol: Symbol, targetNode: Option<Node>)

  /**
   * The pattern match of `IsRecursiveTarget`, in its order: a target with a
   * declaration node, a field, or an auto-property (`isAutoProperty` stands for
   * the Roslyn helper of that name) is not recorded.
   */
  predicate IsRecursiveTarget(t: Target, isAutoProperty: Symbol -> bool): (r: bool)
    ensures r <==> && t.targetNode.None?
                   && !Is(Some(t.symbol), IFieldSymbol)
                   && !(Is(Some(t.symbol), IPropertySymbol) && isAutoProperty(t.symbol))
    ensures t.symbol.kind != Property ==> (r <==> t.targetNode.None? && t.symbol.kind != Field)
  {
    if t.targetNode.Some? then false
    else if t.symbol.kind == Field then false
    else if t.symbol.kind == Property && isAutoProperty(t.symbol) then false
    else true
  }

  /** What one `TryGetTargetSymbol(node, ...)` appends, given what the base resolver gave. */
  function Deferred(node: Node, resolved: Option<Target>, isAutoProperty: Symbol -> bool): (d: seq<Target>)
    ensures |d| <= 1
    ensures |d| == 1 <==> resolved.Some? && IsRecursiveTarget(resolved.value, isAutoProperty)
    ensures |d| == 1 ==> d[0] == Target(node, resolved.value.symbol, resolved.value.targetNode)
  {
    if resolved.Some? && IsRecursiveTarget(resolved.value, isAutoProperty) then
      [Target(node, resolved.value.symbol, resolved.value.targetNode)]
    else []
  }

  /** What a run of `TryGetTargetSymbol` calls on `nodes`, in order, appends. */
  function DeferredAll(nodes: seq<Node>, resolve: Node -> Option<Target>, isAutoProperty: Symbol -> bool): seq<Target>
    decreases |nodes|
  {
    if nodes == [] then []
    else Deferred(nodes[0], resolve(nodes[0]), isAutoProperty) + DeferredAll(nodes[1..], resolve, isAutoProperty)
  }

  /** A later call only appends: the targets of earlier calls stay in front, in call order. */
  lemma {:induction false} DeferredAllAppends(nodes: seq<Node>, more: seq<Node>,
                                              resolve: Node -> Option<Target>, isAutoProperty: Symbol -> bool)
    ensures DeferredAll(nodes + more, resolve, isAutoProperty) ==
      DeferredAll(nodes, resolve, isAutoProperty) + DeferredAll(more, resolve, isAutoProperty)
    decreases |nodes|
  {
    if nodes == [] {
      assert nodes + more == more;
    } else {
      assert (nodes + more)[1..] == nodes[1..] + more;
      DeferredAllAppends(nodes[1..], more, resolve, isAutoProperty);
    }
  }

  /** At most one target per call, and only recursive targets, each for a node that was asked about. */
  lemma {:induction false} DeferredAllIsFiltered(nodes: seq<Node>, resolve: Node -> Option<Target>,
                                                 isAutoProperty: Symbol -> bool)
    ensures |DeferredAll(nodes, resolve, isAutoProperty)| <= |nodes|
    ensures forall i :: 0 <= i < |DeferredAll(nodes, resolve, isAutoProperty)| ==>
      var t := DeferredAll(nodes, resolve, isAutoProperty)[i];
      && t.source in nodes
      && t.targetNode.None?
      && t.symbol.kind != Field
      && !(t.symbol.kind == Property && isAutoProperty(t.symbol))
    decreases |nodes|
  {
    if nodes != [] {
      DeferredAllIsFiltered(nodes[1..], resolve, isAutoProperty);
      var d: seq<Target> := Deferred(nodes[0], resolve(nodes[0]), isAutoProperty);
      var rest: seq<Target> := DeferredAll(nodes[1..], resolve, isAutoProperty);
      forall i | 0 <= i < |d + rest|
        ensures (d + rest)[i].source in nodes
      {
        if i >= |d| {
          assert (d + rest)[i] == rest[i - |d|];
          assert rest[i - |d|].source in nodes[1..];
        }
      }
    }
  }

  /** When no resolution of any call passes the filter, nothing is recorded. */
  lemma {:induction false} NothingRecordedWithoutRecursiveTargets(nodes: seq<Node>, resolve: Node -> Option<Target>,
                                                                  isAutoProperty: Symbol -> bool)
    requires forall i :: 0 <= i < |nodes| ==>
      resolve(nodes[i]).None? || !IsRecursiveTarget(resolve(nodes[i]).value, isAutoProperty)
    ensures DeferredAll(nodes, resolve, isAutoProperty) == []
    decreases |nodes|
  {
    if nodes != [] {
      assert forall i :: 0 <= i < |nodes[1..]| ==> nodes[1..][i] == nodes[i + 1];
      NothingRecordedWithoutRecursiveTargets(nodes[1..], resolve, isAutoProperty);
    }
  }

  class RecursiveWalker {
    /** The Roslyn `IsAutoProperty` helper, fixed for the walker's lifetime. */
    const isAutoProperty: Symbol -> bool
    var targets: seq<Target>

    /** Every recorded target passed the filter. */
    ghost predicate Valid()
      reads this
    {
      forall i :: 0 <= i < |targets| ==> IsRecursiveTarget(targets[i], isAutoProperty)
    }

    constructor (isAutoProperty: Symbol -> bool)
      ensures this.isAutoProperty == isAutoProperty
      ensures Valid() && targets == []
    {
      this.isAutoProperty := isAutoProperty;
      targets := [];
    }

    method Clear()
      modifies this
      ensures Valid() && targets == []
    {
      targets := [];
    }

    /**
     * Run the base resolver `resolve` on `node`, record the target when it
     * qualifies, and report failure so that the caller never expands it inline.
     */
    method TryGetTargetSymbol(node: Node, resolve: Node -> Option<Target>) returns (ok: bool, target: Option<Target>)
      requires Valid()
      modifies this
      ensures Valid()
      ensures !ok
      ensures target == resolve(node)
      ensures targets == old(targets) + Deferred(node, resolve(node), isAutoProperty)
    {
      target := resolve(node);
      if target.Some? && IsRecursiveTarget(target.value, isAutoProperty) {
        targets := targets + [Target(node, target.value.symbol, target.value.targetNode)];
      }
      return false, target;
    }
  }
}
