/** `IncludeApplyingVisitor.cs`: the two visitors that turn the include
    information recorded in the navigation tree into query operators.
    `PendingIncludeFindingVisitor` collects the reference includes still to be
    joined; `PendingSelectorIncludeRewriter` wraps each binding of the pending
    selector in one `Include` node per child marked for inclusion. */
module IncludeApplying {
  import opened Outcomes
  import opened Clr
  import opened Expressions
  import opened NavigationTree
  import opened CollectionNavigationRewriting

  // ------------------------------------------------ PendingIncludeFindingVisitor

  /** The `PendingIncludes` dictionary: its entries, and its keys in the order
      they were first added, which is the order it is enumerated in. */
  datatype PendingIncludes = PendingIncludes(entries: map<NodeId, SourceMapping>, order: seq<NodeId>)

  /** The key order lists every key of the dictionary exactly once. */
  predicate Consistent(d: PendingIncludes) {
    (forall k :: k in d.order ==> k in d.entries) && (forall k :: k in d.entries ==> k in d.order)
    && NoDuplicates(d.order)
  }

  /** The indexer assignment `PendingIncludes[node] = sourceMapping`: an
      existing key keeps its place, a new key is enumerated last. */
  function Record(d: PendingIncludes, node: NodeId, sm: SourceMapping): (r: PendingIncludes)
    ensures node in r.entries && r.entries[node] == sm
    ensures forall k :: k != node ==> (k in r.entries <==> k in d.entries)
    ensures forall k :: k != node && k in d.entries ==> r.entries[k] == d.entries[k]
    ensures d.order <= r.order
    ensures Consistent(d) ==> Consistent(r)
  {
    if node in d.entries then PendingIncludes(d.entries[node := sm], d.order)
    else PendingIncludes(d.entries[node := sm], d.order + [node])
  }

  predicate IsCollectionNode(n: TreeNode) {
    n.navigation.Some? && n.navigation.value.isCollection
  }

  /** A reference include that no join has carried out yet. */
  predicate IsPendingReference(n: TreeNode) {
    n.included == IncludeMode.ReferencePending && n.expansionMode != ExpansionMode.ReferenceComplete
  }

  /** `k` is reached from `id` by following child links, and neither `k` nor
      any node on the way is a collection navigation. */
  predicate ReachedFrom(ns: seq<TreeNode>, id: NodeId, k: NodeId)
    requires WellFormed(ns) && k < |ns|
    decreases k
  {
    !IsCollectionNode(ns[k])
    && (k == id || (id < k && ns[k].parent.Some? && (assert NodeOk(ns, k); ReachedFrom(ns, id, ns[k].parent.value))))
  }

  /** The nodes the search below `id` records. */
  function PendingReach(ns: seq<TreeNode>, id: NodeId): set<NodeId>
    requires WellFormed(ns) && id < |ns|
    decreases |ns| - id, 1
  {
    if IsCollectionNode(ns[id]) then {}
    else
      assert NodeOk(ns, id);
      (if IsPendingReference(ns[id]) then {id} else {}) + PendingReachAll(ns, ns[id].children, id)
  }

  function PendingReachAll(ns: seq<TreeNode>, cs: seq<NodeId>, bound: nat): set<NodeId>
    requires WellFormed(ns) && Above(ns, cs, bound)
    decreases |ns| - bound, 0, |cs|
  {
    if cs == [] then {} else PendingReach(ns, cs[0]) + PendingReachAll(ns, cs[1..], bound)
  }

  /** `FindPendingReferenceIncludes(node, sourceMapping)`: every node it
      records is mapped to the source mapping, and nothing else changes. */
  function FindSpec(ns: seq<TreeNode>, id: NodeId, sm: SourceMapping, d: PendingIncludes): (r: PendingIncludes)
    requires WellFormed(ns) && id < |ns|
    ensures r.entries.Keys == d.entries.Keys + PendingReach(ns, id)
    ensures forall k :: k in PendingReach(ns, id) ==> r.entries[k] == sm
    ensures forall k :: k in d.entries && k !in PendingReach(ns, id) ==> r.entries[k] == d.entries[k]
    ensures d.order <= r.order
    ensures Consistent(d) ==> Consistent(r)
    decreases |ns| - id, 1
  {
    if IsCollectionNode(ns[id]) then d
    else
      assert NodeOk(ns, id);
      var d1 := if IsPendingReference(ns[id]) then Record(d, id, sm) else d;
      FindAllSpec(ns, ns[id].children, id, sm, d1)
  }

  function FindAllSpec(ns: seq<TreeNode>, cs: seq<NodeId>, bound: nat, sm: SourceMapping, d: PendingIncludes): (r: PendingIncludes)
    requires WellFormed(ns) && Above(ns, cs, bound)
    ensures r.entries.Keys == d.entries.Keys + PendingReachAll(ns, cs, bound)
    ensures forall k :: k in PendingReachAll(ns, cs, bound) ==> r.entries[k] == sm
    ensures forall k :: k in d.entries && k !in PendingReachAll(ns, cs, bound) ==> r.entries[k] == d.entries[k]
    ensures d.order <= r.order
    ensures Consistent(d) ==> Consistent(r)
    decreases |ns| - bound, 0, |cs|
  {
    if cs == [] then d
    else FindAllSpec(ns, cs[1..], bound, sm, FindSpec(ns, cs[0], sm, d))
  }

  /** The loop over the children, one child at a time. */
  lemma FindAllStep(ns: seq<TreeNode>, cs: seq<NodeId>, k: nat, bound: nat, sm: SourceMapping, d: PendingIncludes)
    requires WellFormed(ns) && Above(ns, cs, bound) && k < |cs|
    ensures Above(ns, cs[k..], bound) && Above(ns, cs[k + 1..], bound) && bound < cs[k] < |ns|
    ensures FindAllSpec(ns, cs[k..], bound, sm, d) == FindAllSpec(ns, cs[k + 1..], bound, sm, FindSpec(ns, cs[k], sm, d))
  {
    assert cs[k..][0] == cs[k] && cs[k..][1..] == cs[k + 1..];
  }

  lemma {:induction false} ReachedAbove(ns: seq<TreeNode>, id: NodeId, k: NodeId)
    requires WellFormed(ns) && k < |ns| && ReachedFrom(ns, id, k)
    ensures id <= k && !IsCollectionNode(ns[id])
    decreases k
  {
    if k != id {
      assert NodeOk(ns, k);
      ReachedAbove(ns, id, ns[k].parent.value);
    }
  }

  lemma {:induction false} ReachedThroughParent(ns: seq<TreeNode>, p: NodeId, c: NodeId, k: NodeId)
    requires WellFormed(ns) && p < c < |ns| && k < |ns| && ns[c].parent == Some(p)
    requires !IsCollectionNode(ns[p]) && ReachedFrom(ns, c, k)
    ensures ReachedFrom(ns, p, k)
    decreases k
  {
    assert NodeOk(ns, c);
    if k != c {
      assert NodeOk(ns, k);
      ReachedThroughParent(ns, p, c, ns[k].parent.value);
    }
  }

  lemma {:induction false} ReachedBelowSomeChild(ns: seq<TreeNode>, id: NodeId, k: NodeId) returns (c: NodeId)
    requires WellFormed(ns) && id < |ns| && k < |ns| && k != id && ReachedFrom(ns, id, k)
    ensures c in ns[id].children && c < |ns| && ReachedFrom(ns, c, k)
    decreases k
  {
    assert NodeOk(ns, k);
    var q := ns[k].parent.value;
    if q == id {
      c := k;
    } else {
      c := ReachedBelowSomeChild(ns, id, q);
      ReachedAbove(ns, c, q);
    }
  }

  lemma {:induction false} PendingReachAllMember(ns: seq<TreeNode>, cs: seq<NodeId>, bound: nat, x: NodeId) returns (c: NodeId)
    requires WellFormed(ns) && Above(ns, cs, bound) && x in PendingReachAll(ns, cs, bound)
    ensures c in cs && c < |ns| && x in PendingReach(ns, c)
    decreases |cs|
  {
    if x in PendingReach(ns, cs[0]) {
      c := cs[0];
    } else {
      c := PendingReachAllMember(ns, cs[1..], bound, x);
    }
  }

  lemma {:induction false} PendingReachAllContains(ns: seq<TreeNode>, cs: seq<NodeId>, bound: nat, c: NodeId, x: NodeId)
    requires WellFormed(ns) && Above(ns, cs, bound) && c in cs && c < |ns| && x in PendingReach(ns, c)
    ensures x in PendingReachAll(ns, cs, bound)
    decreases |cs|
  {
    if c != cs[0] {
      PendingReachAllContains(ns, cs[1..], bound, c, x);
    }
  }

  /** The search records exactly the pending reference includes reached from
      the node without passing through a collection navigation: collection
      navigations get their own expansion, whose includes are applied when
      that expansion is reduced. */
  lemma {:induction false} PendingReachMembers(ns: seq<TreeNode>, id: NodeId, x: NodeId)
    requires WellFormed(ns) && id < |ns|
    ensures x in PendingReach(ns, id) <==> x < |ns| && ReachedFrom(ns, id, x) && IsPendingReference(ns[x])
    decreases |ns| - id
  {
    assert NodeOk(ns, id);
    if !IsCollectionNode(ns[id]) && x in PendingReachAll(ns, ns[id].children, id) {
      var c := PendingReachAllMember(ns, ns[id].children, id, x);
      PendingReachMembers(ns, c, x);
      ReachedThroughParent(ns, id, c, x);
    }
    if x < |ns| && ReachedFrom(ns, id, x) && IsPendingReference(ns[x]) && x != id {
      var c := ReachedBelowSomeChild(ns, id, x);
      ReachedAbove(ns, id, x);
      PendingReachMembers(ns, c, x);
      PendingReachAllContains(ns, ns[id].children, id, c, x);
    }
  }

  /** The parts of the extension nodes that their `VisitChildren` visits. */
  function ExtensionParts(e: Expr): (r: seq<Expr>)
    ensures forall c :: c in r ==> c < e
    ensures e.CorrelationPredicate? ==> r == [e.outerKeyNullCheck, e.equalExpression]
    ensures e.Include? ==> r == [e.entityExpression, e.navigationExpression]
    ensures e.NullConditional? ==> r == [e.caller, e.accessOperation]
    ensures !(e.CorrelationPredicate? || e.Include? || e.NullConditional?) ==> r == []
  {
    match e
    case CorrelationPredicate(a, b) => [a, b]
    case Include(a, b, _) => [a, b]
    case NullConditional(a, b) => [a, b]
    case _ => []
  }

  /** What visiting an expression adds to the dictionary: member accesses
      and `EF.Property` calls are pruned, the search starts at every binding,
      and stops at custom roots, expansion roots and expansions. */
  function FindInExpr(ns: seq<TreeNode>, e: Expr, d: PendingIncludes): (r: Result<PendingIncludes>)
    requires WellFormed(ns)
    ensures (e.Member? || (e.Call? && IsEFPropertyMethod(e.callee)) || e.CustomRoot? || e.ExpansionRoot? || e.Expansion?
             || e.Parameter? || e.Constant?) ==> r == Ok(d)
    ensures e.UnknownExtension? ==> r.Err? && r.failure.Argument?
    ensures e.Binding? && e.navigationTreeNode < |ns| ==> r == Ok(FindSpec(ns, e.navigationTreeNode, e.sourceMapping, d))
    ensures r.Ok? ==> d.order <= r.value.order && d.entries.Keys <= r.value.entries.Keys
    ensures r.Ok? && Consistent(d) ==> Consistent(r.value)
    ensures r.Ok? ==> forall k :: k in r.value.entries && k !in d.entries ==> k < |ns| && IsPendingReference(ns[k]) && !IsCollectionNode(ns[k])
    // the extensions that visit their own parts, and every ordinary node, are searched part by part
    ensures e.CorrelationPredicate? || e.Include? || e.NullConditional? ==> r == FindInAll(ns, ExtensionParts(e), e, d)
    ensures !IsExtension(e) && !e.Member? && !(e.Call? && IsEFPropertyMethod(e.callee)) ==> r == FindInAll(ns, Children(e), e, d)
    decreases e, 1
  {
    if e.Member? || (e.Call? && IsEFPropertyMethod(e.callee)) then Ok(d)
    else if e.Binding? then
      if e.navigationTreeNode < |ns| then
        var r := FindSpec(ns, e.navigationTreeNode, e.sourceMapping, d);
        assert forall k :: k in r.entries && k !in d.entries ==> k < |ns| && IsPendingReference(ns[k]) && !IsCollectionNode(ns[k]) by {
          forall k | k in r.entries && k !in d.entries
            ensures k < |ns| && IsPendingReference(ns[k]) && !IsCollectionNode(ns[k])
          {
            PendingReachMembers(ns, e.navigationTreeNode, k);
          }
        }
        Ok(r)
      else Ok(d)
    else if e.CustomRoot? || e.ExpansionRoot? || e.Expansion? then Ok(d)
    else if e.UnknownExtension? then Err(Argument(NotReducible))
    else if IsExtension(e) then FindInAll(ns, ExtensionParts(e), e, d)
    else FindInAll(ns, Children(e), e, d)
  }

  function FindInAll(ns: seq<TreeNode>, cs: seq<Expr>, bound: Expr, d: PendingIncludes): (r: Result<PendingIncludes>)
    requires WellFormed(ns) && forall k :: 0 <= k < |cs| ==> cs[k] < bound
    ensures r.Ok? ==> d.order <= r.value.order && d.entries.Keys <= r.value.entries.Keys
    ensures r.Ok? && Consistent(d) ==> Consistent(r.value)
    ensures r.Ok? ==> forall k :: k in r.value.entries && k !in d.entries ==> k < |ns| && IsPendingReference(ns[k]) && !IsCollectionNode(ns[k])
    // the parts are searched in order, each adding to the dictionary the previous one left
    ensures cs == [] ==> r == Ok(d)
    ensures cs != [] && FindInExpr(ns, cs[0], d).Err? ==> r == Err(FindInExpr(ns, cs[0], d).failure)
    ensures cs != [] && FindInExpr(ns, cs[0], d).Ok? ==> r == FindInAll(ns, cs[1..], bound, FindInExpr(ns, cs[0], d).value)
    decreases bound, 0, |cs|
  {
    if cs == [] then Ok(d)
    else
      var d1 :- FindInExpr(ns, cs[0], d);
      FindInAll(ns, cs[1..], bound, d1)
  }

  /** `PendingIncludeFindingVisitor`, with its dictionary. */
  class PendingIncludeFinder {
    var entries: map<NodeId, SourceMapping>
    var order: seq<NodeId>

    /** The `PendingIncludes` property. */
    function Contents(): PendingIncludes
      reads this
    {
      PendingIncludes(entries, order)
    }

    constructor ()
      ensures Contents() == PendingIncludes(map[], [])
    {
      entries := map[];
      order := [];
    }

    /** `FindPendingReferenceIncludes`. */
    method FindPendingReferenceIncludes(ns: seq<TreeNode>, node: NodeId, sm: SourceMapping)
      requires WellFormed(ns) && node < |ns|
      modifies this
      ensures Contents() == FindSpec(ns, node, sm, old(Contents()))
      decreases |ns| - node, 1
    {
      var n := ns[node];
      if n.navigation.Some? && n.navigation.value.isCollection {
        return;
      }
      RecordIfPending(n, node, sm);
      assert NodeOk(ns, node);
      FindInChildren(ns, n.children, node, sm);
    }

    /** The loop of lines 95-98 over the children, in order. */
    method FindInChildren(ns: seq<TreeNode>, cs: seq<NodeId>, bound: nat, sm: SourceMapping)
      requires WellFormed(ns) && Above(ns, cs, bound)
      modifies this
      ensures Contents() == FindAllSpec(ns, cs, bound, sm, old(Contents()))
      decreases |ns| - bound, 0
    {
      ghost var start := Contents();
      var k := 0;
      while k < |cs|
        invariant 0 <= k <= |cs|
        invariant FindAllSpec(ns, cs[k..], bound, sm, Contents()) == FindAllSpec(ns, cs, bound, sm, start)
      {
        FindAllStep(ns, cs, k, bound, sm, Contents());
        FindPendingReferenceIncludes(ns, cs[k], sm);
        k := k + 1;
      }
      assert cs[k..] == [];
    }

    /** The indexer assignment of lines 90-93, when the node is a pending
        reference include. */
    method RecordIfPending(n: TreeNode, node: NodeId, sm: SourceMapping)
      modifies this
      ensures Contents() == if IsPendingReference(n) then Record(old(Contents()), node, sm) else old(Contents())
    {
      if n.included == IncludeMode.ReferencePending && n.expansionMode != ExpansionMode.ReferenceComplete {
        if node !in entries {
          order := order + [node];
        }
        entries := entries[node := sm];
      }
    }

    /** `Visit`: the expression comes back unchanged; the dictionary grows. */
    method Visit(ns: seq<TreeNode>, e: Expr) returns (r: Result<Expr>)
      requires WellFormed(ns)
      modifies this
      ensures r.Ok? <==> FindInExpr(ns, e, old(Contents())).Ok?
      ensures r.Ok? ==> r.value == e && Contents() == FindInExpr(ns, e, old(Contents())).value
      decreases e, 1
    {
      if e.Member? || (e.Call? && IsEFPropertyMethod(e.callee)) {
        return Ok(e);
      }
      if e.Binding? {
        if e.navigationTreeNode < |ns| {
          FindPendingReferenceIncludes(ns, e.navigationTreeNode, e.sourceMapping);
        }
        return Ok(e);
      }
      if e.CustomRoot? || e.ExpansionRoot? || e.Expansion? {
        return Ok(e);
      }
      if e.UnknownExtension? {
        return Err(Argument(NotReducible));
      }
      var parts := if IsExtension(e) then ExtensionParts(e) else Children(e);
      var ok := VisitAll(ns, parts, e);
      if ok {
        r := Ok(e);
      } else {
        r := Err(Argument(NotReducible));
      }
    }

    /** Visits sub-expressions in order; stops at the first failure. */
    method VisitAll(ns: seq<TreeNode>, cs: seq<Expr>, ghost bound: Expr) returns (ok: bool)
      requires WellFormed(ns) && forall k :: 0 <= k < |cs| ==> cs[k] < bound
      modifies this
      ensures ok <==> FindInAll(ns, cs, bound, old(Contents())).Ok?
      ensures ok ==> Contents() == FindInAll(ns, cs, bound, old(Contents())).value
      decreases bound, 0
    {
      var k := 0;
      while k < |cs|
        invariant 0 <= k <= |cs|
        invariant FindInAll(ns, cs[k..], bound, Contents()) == FindInAll(ns, cs, bound, old(Contents()))
      {
        assert cs[k..][1..] == cs[k + 1..];
        var r := Visit(ns, cs[k]);
        if r.Err? {
          return false;
        }
        k := k + 1;
      }
      return true;
    }
  }

  // ------------------------------------------------ PendingSelectorIncludeRewriter

  /** Creating collection subqueries changes the existing nodes only in
      their expansion mode; new nodes are appended. */
  predicate OnlyExpanded(ns: seq<TreeNode>, r: seq<TreeNode>) {
    |ns| <= |r| && forall i :: 0 <= i < |ns| ==> r[i] == ns[i].(expansionMode := r[i].expansionMode)
  }

  predicate Expands(ctx: Ctx, ctx': Ctx) {
    WellFormed(ctx'.nodes) && OnlyExpanded(ctx.nodes, ctx'.nodes) && ctx.nextParameterId <= ctx'.nextParameterId
  }

  lemma ExpandsTransitive(a: Ctx, b: Ctx, c: Ctx)
    requires Expands(a, b) && Expands(b, c)
    ensures Expands(a, c)
  {
    forall i | 0 <= i < |a.nodes| ensures c.nodes[i] == a.nodes[i].(expansionMode := c.nodes[i].expansionMode) {
      assert b.nodes[i] == a.nodes[i].(expansionMode := b.nodes[i].expansionMode);
    }
  }

  /** Only expanding keeps the arena closed below a bound. */
  lemma ExpandsClosed(ctx: Ctx, ctx': Ctx, base: nat)
    requires Expands(ctx, ctx') && ClosedBelow(ctx.nodes, base)
    ensures ClosedBelow(ctx'.nodes, base)
  {
    forall i, k | 0 <= i < base && 0 <= k < |ctx'.nodes[i].children| ensures ctx'.nodes[i].children[k] < base {
      assert ctx'.nodes[i].children == ctx.nodes[i].children;
    }
  }

  lemma WellFormedClosed(ns: seq<TreeNode>)
    requires WellFormed(ns)
    ensures ClosedBelow(ns, |ns|)
  {
    forall i, k | 0 <= i < |ns| && 0 <= k < |ns[i].children| ensures ns[i].children[k] < |ns| {
      assert NodeOk(ns, i);
    }
  }

  /** The subquery of a collection include only expands the arena. */
  lemma CollectionSubqueryExpands(ctx: Ctx, nodeId: NodeId, rootParameter: Param, sm: SourceMapping)
    requires WellFormed(ctx.nodes) && nodeId < |ctx.nodes| && ctx.nodes[nodeId].navigation.Some?
    ensures Expands(ctx, CreateCollectionNavigationExpression(ctx, nodeId, rootParameter, sm).1)
  {
    var ns := ctx.nodes;
    var r := CreateCollectionNavigationExpression(ctx, nodeId, rootParameter, sm).1.nodes;
    assert r[nodeId] == ns[nodeId].(expansionMode := r[nodeId].expansionMode);
  }

  /** A child marked for inclusion, as a reference or as a collection. */
  predicate MarkedForInclude(n: TreeNode) {
    n.included == IncludeMode.ReferencePending || n.included == IncludeMode.Collection
  }

  /** `Children.Where(n => n.Included == ReferencePending || n.Included == Collection)`. */
  function IncludeChildren(ns: seq<TreeNode>, cs: seq<NodeId>): (r: seq<NodeId>)
    ensures forall k :: 0 <= k < |r| ==> r[k] in cs && r[k] < |ns| && MarkedForInclude(ns[r[k]])
    ensures forall k :: 0 <= k < |cs| && cs[k] < |ns| && MarkedForInclude(ns[cs[k]]) ==> cs[k] in r
    ensures r == [] <==> forall c :: c in cs && c < |ns| ==> !MarkedForInclude(ns[c])
    decreases |cs|
  {
    if cs == [] then []
    else if cs[0] < |ns| && MarkedForInclude(ns[cs[0]]) then [cs[0]] + IncludeChildren(ns, cs[1..])
    else IncludeChildren(ns, cs[1..])
  }

  /** The navigations the arena records for some nodes, in order. */
  function Navigations(ns: seq<TreeNode>, cs: seq<NodeId>): (r: seq<Option<Navigation>>)
    ensures |r| == |cs|
    ensures forall k :: 0 <= k < |cs| && cs[k] < |ns| ==> r[k] == ns[cs[k]].navigation
    decreases |cs|
  {
    if cs == [] then [] else [if cs[0] < |ns| then ns[cs[0]].navigation else None] + Navigations(ns, cs[1..])
  }

  /** Splits nested `Include` nodes into the innermost entity expression and
      the navigation of each layer, innermost first. */
  function Peel(e: Expr): (r: (Expr, seq<Option<Navigation>>))
    ensures !r.0.Include?
    ensures r.1 == [] <==> r.0 == e
    decreases e
  {
    if e.Include? then
      var inner := Peel(e.entityExpression);
      (inner.0, inner.1 + [Some(e.navigation)])
    else (e, [])
  }

  /** `CreateIncludeCall`: an include of the node's navigation around the
      caller, through a correlated subquery for a collection and through a
      binding of the node for a reference. */
  function IncludeCall(ctx: Ctx, caller: Expr, node: NodeId, rootParameter: Param, sm: SourceMapping, base: nat): (r: (Expr, Ctx))
    requires WellFormed(ctx.nodes) && ClosedBelow(ctx.nodes, base) && node < base
    requires ctx.nodes[node].navigation.Some?
    ensures Expands(ctx, r.1)
    ensures r.0.Include? && r.0.entityExpression == caller && r.0.navigation == ctx.nodes[node].navigation.value
    ensures node < |ctx.nodes|
    ensures ctx.nodes[node].navigation.value.isCollection ==> r == IncludeCollection(ctx, caller, node, rootParameter, sm)
    ensures !ctx.nodes[node].navigation.value.isCollection ==> r == IncludeReference(ctx, caller, node, rootParameter, sm, base)
    decreases base - node, 2
  {
    if ctx.nodes[node].navigation.value.isCollection then IncludeCollection(ctx, caller, node, rootParameter, sm)
    else IncludeReference(ctx, caller, node, rootParameter, sm, base)
  }

  /** `CreateIncludeCollectionCall`: the included expression is the
      correlated subquery of the collection node. */
  function IncludeCollection(ctx: Ctx, caller: Expr, node: NodeId, rootParameter: Param, sm: SourceMapping): (r: (Expr, Ctx))
    requires WellFormed(ctx.nodes) && node < |ctx.nodes| && ctx.nodes[node].navigation.Some?
    ensures Expands(ctx, r.1)
    ensures r.0.Include? && r.0.entityExpression == caller && r.0.navigation == ctx.nodes[node].navigation.value
    ensures (r.0.navigationExpression, r.1) == CreateCollectionNavigationExpression(ctx, node, rootParameter, sm)
  {
    var included := CreateCollectionNavigationExpression(ctx, node, rootParameter, sm);
    CollectionSubqueryExpands(ctx, node, rootParameter, sm);
    (Include(caller, included.0, ctx.nodes[node].navigation.value), included.1)
  }

  /** `CreateIncludeReferenceCall`: the included expression is a binding of
      the node to its target entity type, wrapped in the includes of the
      node's own marked children, in child order. */
  function IncludeReference(ctx: Ctx, caller: Expr, node: NodeId, rootParameter: Param, sm: SourceMapping, base: nat): (r: (Expr, Ctx))
    requires WellFormed(ctx.nodes) && ClosedBelow(ctx.nodes, base) && node < base
    requires ctx.nodes[node].navigation.Some?
    ensures Expands(ctx, r.1)
    ensures var nav := ctx.nodes[node].navigation.value;
            r.0.Include? && r.0.entityExpression == caller && r.0.navigation == nav
            && Peel(r.0.navigationExpression)
               == (Binding(rootParameter, node, nav.targetEntityType, sm, nav.targetEntityType.ClrType()),
                   Navigations(ctx.nodes, IncludeChildren(ctx.nodes, ctx.nodes[node].children)))
    decreases base - node, 1
  {
    var ns := ctx.nodes;
    var nav := ns[node].navigation.value;
    var entityType := nav.targetEntityType;
    var binding := Binding(rootParameter, node, entityType, sm, entityType.ClrType());
    var cs := IncludeChildren(ns, ns[node].children);
    MarkedChildrenBelow(ns, node, base, cs);
    var included := IncludeFold(ctx, binding, cs, node, rootParameter, sm, base);
    PeelBinding(binding, Navigations(ns, cs));
    (Include(caller, included.0, nav), included.1)
  }

  lemma MarkedChildrenBelow(ns: seq<TreeNode>, node: NodeId, base: nat, cs: seq<NodeId>)
    requires WellFormed(ns) && ClosedBelow(ns, base) && node < base && cs == IncludeChildren(ns, ns[node].children)
    ensures forall k :: 0 <= k < |cs| ==> node < cs[k] < base && ns[cs[k]].navigation.Some?
  {
    assert NodeOk(ns, node);
    forall k | 0 <= k < |cs| ensures node < cs[k] < base && ns[cs[k]].navigation.Some? {
      assert NodeOk(ns, cs[k]);
    }
  }

  /** The loop over the marked children: each one wraps the result so far. */
  function IncludeFold(ctx: Ctx, result: Expr, cs: seq<NodeId>, bound: nat, rootParameter: Param, sm: SourceMapping, base: nat): (r: (Expr, Ctx))
    requires WellFormed(ctx.nodes) && ClosedBelow(ctx.nodes, base)
    requires forall k :: 0 <= k < |cs| ==> bound < cs[k] < base && ctx.nodes[cs[k]].navigation.Some?
    ensures Expands(ctx, r.1)
    ensures Peel(r.0) == (Peel(result).0, Peel(result).1 + Navigations(ctx.nodes, cs))
    ensures cs == [] ==> r == (result, ctx)
    decreases base - bound, 0, |cs|
  {
    if cs == [] then
      assert Peel(result).1 + Navigations(ctx.nodes, cs) == Peel(result).1;
      (result, ctx)
    else
      var first := IncludeCall(ctx, result, cs[0], rootParameter, sm, base);
      ExpandsClosed(ctx, first.1, base);
      var rest := IncludeFold(first.1, first.0, cs[1..], bound, rootParameter, sm, base);
      ExpandsTransitive(ctx, first.1, rest.1);
      NavigationsKept(ctx, first.1, cs[1..]);
      PeelOneMore(result, first.0, ctx.nodes[cs[0]].navigation.value);
      NavigationsFirst(ctx.nodes, cs);
      AppendOne(Peel(result).1, ctx.nodes[cs[0]].navigation, Navigations(ctx.nodes, cs[1..]));
      rest
  }

  lemma NavigationsKept(ctx: Ctx, ctx': Ctx, cs: seq<NodeId>)
    requires Expands(ctx, ctx') && forall k :: 0 <= k < |cs| ==> cs[k] < |ctx.nodes|
    ensures Navigations(ctx'.nodes, cs) == Navigations(ctx.nodes, cs)
  {
  }

  lemma PeelOneMore(result: Expr, wrapped: Expr, n: Navigation)
    requires wrapped.Include? && wrapped.entityExpression == result && wrapped.navigation == n
    ensures Peel(wrapped) == (Peel(result).0, Peel(result).1 + [Some(n)])
  {
  }

  lemma NavigationsFirst(ns: seq<TreeNode>, cs: seq<NodeId>)
    requires cs != [] && cs[0] < |ns|
    ensures Navigations(ns, cs) == [ns[cs[0]].navigation] + Navigations(ns, cs[1..])
  {
  }

  lemma PeelBinding(b: Expr, navs: seq<Option<Navigation>>)
    requires b.Binding?
    ensures (Peel(b).0, Peel(b).1 + navs) == (b, navs)
  {
    assert Peel(b) == (b, []);
    assert [] + navs == navs;
  }

  lemma AppendOne<T>(a: seq<T>, x: T, b: seq<T>)
    ensures a + [x] + b == a + ([x] + b)
  {
  }

  /** The innermost layer the fold adds is the include call of the first
      marked child around `result`; the remaining layers are the fold over
      the other children, started from that call's result and context. */
  lemma IncludeFoldLayers(ctx: Ctx, result: Expr, cs: seq<NodeId>, bound: nat, rootParameter: Param, sm: SourceMapping, base: nat,
                          first: (Expr, Ctx))
    requires WellFormed(ctx.nodes) && ClosedBelow(ctx.nodes, base) && cs != []
    requires forall k :: 0 <= k < |cs| ==> bound < cs[k] < base && ctx.nodes[cs[k]].navigation.Some?
    requires first == IncludeCall(ctx, result, cs[0], rootParameter, sm, base)
    ensures ClosedBelow(first.1.nodes, base)
    ensures forall k :: 1 <= k < |cs| ==> bound < cs[k] < base && first.1.nodes[cs[k]].navigation.Some?
    ensures IncludeFold(ctx, result, cs, bound, rootParameter, sm, base) == IncludeFold(first.1, first.0, cs[1..], bound, rootParameter, sm, base)
  {
    ExpandsClosed(ctx, first.1, base);
  }


  /** A binding to a node in the arena is the fold of the include calls of
      that node's marked children, in child order, around the binding. */
  lemma RewriteBindingFolds(ctx: Ctx, e: Expr, cs: seq<NodeId>)
    requires WellFormed(ctx.nodes) && e.Binding? && e.navigationTreeNode < |ctx.nodes|
    requires cs == IncludeChildren(ctx.nodes, ctx.nodes[e.navigationTreeNode].children)
    ensures ClosedBelow(ctx.nodes, |ctx.nodes|)
    ensures forall k :: 0 <= k < |cs| ==> e.navigationTreeNode < cs[k] < |ctx.nodes| && ctx.nodes[cs[k]].navigation.Some?
    ensures RewriteBinding(ctx, e) == IncludeFold(ctx, e, cs, e.navigationTreeNode, e.rootParameter, e.sourceMapping, |ctx.nodes|)
  {
    WellFormedClosed(ctx.nodes);
    MarkedChildrenBelow(ctx.nodes, e.navigationTreeNode, |ctx.nodes|, cs);
  }


  /** `Visit` of `PendingSelectorIncludeRewriter`: member accesses and
      `EF.Property` calls are pruned; custom roots, expansion roots and
      expansions are left alone; a binding is wrapped in the includes of its
      node's marked children, in child order. */
  function RewriteIncludes(ctx: Ctx, e: Expr): (r: Result<(Expr, Ctx)>)
    requires WellFormed(ctx.nodes)
    ensures r.Ok? ==> Expands(ctx, r.value.1)
    ensures (e.Member? || (e.Call? && IsEFPropertyMethod(e.callee)) || e.CustomRoot? || e.ExpansionRoot? || e.Expansion?
             || e.Parameter? || e.Constant?) ==> r == Ok((e, ctx))
    ensures e.UnknownExtension? ==> r.Err? && r.failure.Argument?
    ensures e.Binding? && e.navigationTreeNode < |ctx.nodes| ==>
              r.Ok? && Peel(r.value.0) == (e, Navigations(ctx.nodes, IncludeChildren(ctx.nodes, ctx.nodes[e.navigationTreeNode].children)))
    ensures e.Binding? ==> r == Ok(RewriteBinding(ctx, e))
    // the extensions that visit their own parts go through base.VisitExtension
    ensures e.CorrelationPredicate? || e.Include? || e.NullConditional? ==> r == RewriteIncludesParts(ctx, e)
    // an ordinary node is rebuilt over its visited children, only when one changed
    ensures !IsExtension(e) && !e.Member? && !(e.Call? && IsEFPropertyMethod(e.callee)) ==>
              var children := RewriteIncludesAll(ctx, Children(e), e);
              (children.Err? ==> r == Err(children.failure))
              && (children.Ok? ==>
                    r == Ok((if children.value.0 != Children(e) then Rebuild(e, children.value.0) else e, children.value.1)))
    decreases e, 1
  {
    if e.Member? || (e.Call? && IsEFPropertyMethod(e.callee)) then Ok((e, ctx))
    else if e.Binding? then Ok(RewriteBinding(ctx, e))
    else if e.CustomRoot? || e.ExpansionRoot? || e.Expansion? then Ok((e, ctx))
    else if e.UnknownExtension? then Err(Argument(NotReducible))
    else if IsExtension(e) then RewriteIncludesParts(ctx, e)
    else
      var x :- RewriteIncludesAll(ctx, Children(e), e);
      Ok((if x.0 != Children(e) then Rebuild(e, x.0) else e, x.1))
  }

  /** A binding is wrapped in the includes of its node's marked children;
      a binding whose node is not in the arena is left alone. */
  function RewriteBinding(ctx: Ctx, e: Expr): (r: (Expr, Ctx))
    requires WellFormed(ctx.nodes) && e.Binding?
    ensures Expands(ctx, r.1)
    ensures e.navigationTreeNode < |ctx.nodes| ==>
              Peel(r.0) == (e, Navigations(ctx.nodes, IncludeChildren(ctx.nodes, ctx.nodes[e.navigationTreeNode].children)))
    ensures e.navigationTreeNode >= |ctx.nodes| ==> r == (e, ctx)
  {
    if e.navigationTreeNode < |ctx.nodes| then
      var ns := ctx.nodes;
      var node := e.navigationTreeNode;
      WellFormedClosed(ns);
      var cs := IncludeChildren(ns, ns[node].children);
      MarkedChildrenBelow(ns, node, |ns|, cs);
      var r := IncludeFold(ctx, e, cs, node, e.rootParameter, e.sourceMapping, |ns|);
      PeelBinding(e, Navigations(ns, cs));
      r
    else (e, ctx)
  }

  /** The two parts of an extension node that visits its own parts, in visiting order. */
  function PartsOf(e: Expr): (r: (Expr, Expr))
    requires e.CorrelationPredicate? || e.Include? || e.NullConditional?
    ensures r.0 < e && r.1 < e
  {
    match e
    case CorrelationPredicate(nullCheck, equal) => (nullCheck, equal)
    case Include(entity, navigationExpression, _) => (entity, navigationExpression)
    case NullConditional(caller, access) => (caller, access)
  }

  /** The same node over new parts. */
  function WithParts(e: Expr, first: Expr, second: Expr): (r: Expr)
    requires e.CorrelationPredicate? || e.Include? || e.NullConditional?
    ensures r.CorrelationPredicate? == e.CorrelationPredicate? && r.Include? == e.Include?
            && r.NullConditional? == e.NullConditional?
    ensures PartsOf(r) == (first, second)
    ensures e.Include? ==> r.navigation == e.navigation
  {
    match e
    case CorrelationPredicate(_, _) => CorrelationPredicate(first, second)
    case Include(_, _, navigation) => Include(first, second, navigation)
    case NullConditional(_, _) => NullConditional(first, second)
  }

  /** `base.VisitExtension` for the extension nodes that visit their own
      parts: both parts are visited in order, the second in the context the
      first leaves; a correlation predicate whose visited comparison is no
      longer binary fails the cast; the node is rebuilt only when a part
      changed. */
  function RewriteIncludesParts(ctx: Ctx, e: Expr): (r: Result<(Expr, Ctx)>)
    requires WellFormed(ctx.nodes) && (e.CorrelationPredicate? || e.Include? || e.NullConditional?)
    ensures r.Ok? ==> Expands(ctx, r.value.1)
    ensures r.Ok? ==> r.value.0.CorrelationPredicate? == e.CorrelationPredicate? && r.value.0.Include? == e.Include?
                      && r.value.0.NullConditional? == e.NullConditional?
    ensures RewriteIncludes(ctx, PartsOf(e).0).Err? ==> r.Err?
    ensures r.Ok? ==>
              var first := RewriteIncludes(ctx, PartsOf(e).0);
              first.Ok?
              && var second := RewriteIncludes(first.value.1, PartsOf(e).1);
              second.Ok? && r.value.1 == second.value.1
              && (e.CorrelationPredicate? ==> second.value.0.Binary?)
              && r.value.0 == (if first.value.0 != PartsOf(e).0 || second.value.0 != PartsOf(e).1
                               then WithParts(e, first.value.0, second.value.0) else e)
    ensures var first := RewriteIncludes(ctx, PartsOf(e).0);
            (first.Ok? && RewriteIncludes(first.value.1, PartsOf(e).1).Err?) ==> r.Err?
    ensures var first := RewriteIncludes(ctx, PartsOf(e).0);
            (e.CorrelationPredicate? && first.Ok? && RewriteIncludes(first.value.1, PartsOf(e).1).Ok?
             && !RewriteIncludes(first.value.1, PartsOf(e).1).value.0.Binary?)
            ==> r.Err? && r.failure.InvalidCast?
    // it succeeds exactly when both visits do and a correlation's comparison stays binary
    ensures r.Ok? <==> var first := RewriteIncludes(ctx, PartsOf(e).0);
                       first.Ok? && RewriteIncludes(first.value.1, PartsOf(e).1).Ok?
                       && (e.CorrelationPredicate? ==> RewriteIncludes(first.value.1, PartsOf(e).1).value.0.Binary?)
    decreases e, 0
  {
    var parts := PartsOf(e);
    var first :- RewriteIncludes(ctx, parts.0);
    var second :- RewriteIncludes(first.1, parts.1);
    ExpandsTransitive(ctx, first.1, second.1);
    if e.CorrelationPredicate? && !second.0.Binary? then Err(InvalidCast(CastToBinary))
    else Ok((if first.0 != parts.0 || second.0 != parts.1 then WithParts(e, first.0, second.0) else e, second.1))
  }

  /** The parts of a standard node, visited in order, each in the context
      the previous visit leaves. */
  function RewriteIncludesAll(ctx: Ctx, cs: seq<Expr>, bound: Expr): (r: Result<(seq<Expr>, Ctx)>)
    requires WellFormed(ctx.nodes) && forall k :: 0 <= k < |cs| ==> cs[k] < bound
    ensures r.Ok? ==> Expands(ctx, r.value.1) && |r.value.0| == |cs|
    ensures cs == [] ==> r == Ok(([], ctx))
    ensures cs != [] && RewriteIncludes(ctx, cs[0]).Err? ==> r.Err?
    ensures cs != [] && r.Ok? ==>
              var first := RewriteIncludes(ctx, cs[0]);
              first.Ok? && r.value.0[0] == first.value.0
              && RewriteIncludesAll(first.value.1, cs[1..], bound) == Ok((r.value.0[1..], r.value.1))
    // it succeeds exactly when every visit does
    ensures cs != [] ==>
              (r.Ok? <==> RewriteIncludes(ctx, cs[0]).Ok? && RewriteIncludesAll(RewriteIncludes(ctx, cs[0]).value.1, cs[1..], bound).Ok?)
    decreases bound, 0, |cs|
  {
    if cs == [] then Ok(([], ctx))
    else
      var first :- RewriteIncludes(ctx, cs[0]);
      var rest :- RewriteIncludesAll(first.1, cs[1..], bound);
      ExpandsTransitive(ctx, first.1, rest.1);
      Ok(([first.0] + rest.0, rest.1))
  }

  /** A binding whose node has no child marked for inclusion comes back
      unchanged, and with the arena untouched. */
  lemma {:induction false} UnmarkedBindingUnchanged(ctx: Ctx, e: Expr)
    requires WellFormed(ctx.nodes) && e.Binding? && e.navigationTreeNode < |ctx.nodes|
    requires forall c :: c in ctx.nodes[e.navigationTreeNode].children && c < |ctx.nodes| ==> !MarkedForInclude(ctx.nodes[c])
    ensures RewriteIncludes(ctx, e) == Ok((e, ctx))
  {
    assert Peel(RewriteIncludes(ctx, e).value.0).1 == [];
  }
}
