/** `CollectionNavigationRewritingVisitor`: collection navigations become
    correlated subqueries over the entity set of the dependent type, and the
    collection operators applied to them (`List.Exists`, `Contains`, `Count`)
    become LINQ operators.  The navigation tree is threaded through as the
    arena of a `Ctx`, together with the counter that names fresh parameters. */
module CollectionNavigationRewriting {
  import opened Outcomes
  import opened Clr
  import opened Expressions
  import opened NavigationTree
  import opened ExpressionExtensions

  // ------------------------------------------------ how the arena may change

  /** `r` is `ns` after some navigation tree updates: nodes are only added,
      children are only appended, and an include mode, once set, stays. */
  predicate Extends(ns: seq<TreeNode>, r: seq<TreeNode>) {
    |ns| <= |r|
    && forall i :: 0 <= i < |ns| ==>
         r[i] == ns[i].(children := r[i].children, expansionMode := r[i].expansionMode, included := r[i].included)
         && ns[i].children <= r[i].children
         && (ns[i].included != NotNeeded33 ==> r[i].included == ns[i].included)
  }

  predicate Advances(ctx: Ctx, ctx': Ctx) {
    WellFormed(ctx'.nodes) && Extends(ctx.nodes, ctx'.nodes) && ctx.nextParameterId <= ctx'.nextParameterId
  }

  lemma ExtendsTransitive(a: seq<TreeNode>, b: seq<TreeNode>, c: seq<TreeNode>)
    requires Extends(a, b) && Extends(b, c)
    ensures Extends(a, c)
  {
    forall i | 0 <= i < |a|
      ensures c[i] == a[i].(children := c[i].children, expansionMode := c[i].expansionMode, included := c[i].included)
    {
      assert b[i] == a[i].(children := b[i].children, expansionMode := b[i].expansionMode, included := b[i].included);
    }
  }

  lemma CreateExtends(ns: seq<TreeNode>, parentId: NodeId, nav: Navigation, forInclude: bool)
    requires WellFormed(ns) && parentId < |ns|
    ensures Extends(ns, CreateSpec(ns, parentId, nav, forInclude).0)
  {
  }

  lemma SetExpansionModeExtends(ns: seq<TreeNode>, id: NodeId, m: ExpansionMode)
    requires WellFormed(ns) && id < |ns|
    ensures Extends(ns, SetExpansionMode(ns, id, m))
  {
  }

  // ------------------------------------------------ key access and comparison

  /** The type of the key that `CreateKeyAccessExpression` reads: the
      property's type for a one-property key (made nullable when the access
      is null-checked), an anonymous composite for a longer key. */
  function KeyAccessType(properties: seq<Property>, addNullCheck: bool): ClrType {
    if |properties| == 1 then
      (if addNullCheck then MakeNullable(properties[0].propertyType) else properties[0].propertyType)
    else ReferenceType("AnonymousObject")
  }

  /** `CreateKeyAccessExpression(target, properties, addNullCheck)`. */
  function CreateKeyAccess(target: Expr, properties: seq<Property>, addNullCheck: bool): (r: Expr)
    ensures r.Call? && r.arguments == [target] && TypeOf(r) == KeyAccessType(properties, addNullCheck)
  {
    Call(KeyAccess(properties, addNullCheck), [], None, [target], KeyAccessType(properties, addNullCheck))
  }

  /** The key types the two sides of a correlation may have: equal, or one
      the nullable form of the other. */
  predicate CompatibleKeyTypes(outer: ClrType, inner: ClrType) {
    outer == inner || outer == MakeNullable(inner) || inner == MakeNullable(outer)
  }

  /** The conversions of `CreateKeyComparisonExpressionForCollectionNavigationSubquery`:
      keys of different types meet at the outer key's type when that is
      nullable, and at the inner key's type otherwise. */
  function AlignKeys(outerKey: Expr, innerKey: Expr): (r: (Expr, Expr))
    ensures TypeOf(outerKey) == TypeOf(innerKey) ==> r == (outerKey, innerKey)
    ensures r.0 == outerKey || r.1 == innerKey
    ensures r.0 == outerKey || r.0 == Convert(outerKey, TypeOf(innerKey))
    ensures r.1 == innerKey || r.1 == Convert(innerKey, TypeOf(outerKey))
    ensures IsNullableType(TypeOf(outerKey)) ==> r.0 == outerKey
    ensures CompatibleKeyTypes(TypeOf(outerKey), TypeOf(innerKey)) ==>
              TypeOf(r.0) == TypeOf(r.1)
              && (TypeOf(outerKey) != TypeOf(innerKey) ==> IsNullableType(TypeOf(r.0)))
  {
    var outerType, innerType := TypeOf(outerKey), TypeOf(innerKey);
    if outerType == innerType then (outerKey, innerKey)
    else if IsNullableType(outerType) then (outerKey, Convert(innerKey, outerType))
    else (Convert(outerKey, innerType), innerKey)
  }

  /** `CreateKeyComparisonExpressionForCollectionNavigationSubquery`: always
      the pair (collection root is not null, outer key equals inner key). */
  function CreateKeyComparison(outerKey: Expr, innerKey: Expr, collectionRoot: Expr): (r: Expr)
    ensures r.CorrelationPredicate?
    ensures r.outerKeyNullCheck == Binary(NotEqual, collectionRoot, NullConstant(TypeOf(collectionRoot)))
    ensures r.equalExpression.Binary? && r.equalExpression.op == Equal
    ensures (r.equalExpression.left, r.equalExpression.right) == AlignKeys(outerKey, innerKey)
  {
    var (outer, inner) := AlignKeys(outerKey, innerKey);
    CorrelationPredicate(
      Binary(NotEqual, collectionRoot, NullConstant(TypeOf(collectionRoot))),
      Binary(Equal, outer, inner))
  }

  // ------------------------------------------------ CopyIncludeInformation

  /** No node below `base` has a child at or above it. */
  predicate ClosedBelow(ns: seq<TreeNode>, base: nat) {
    base <= |ns|
    && forall i, k :: 0 <= i < base && 0 <= k < |ns[i].children| ==> ns[i].children[k] < base
  }

  /** `parent` has a child for `nav` that is marked for inclusion. */
  predicate HasIncludedChild(ns: seq<TreeNode>, parent: NodeId, nav: Option<Navigation>)
    requires parent < |ns|
  {
    exists j :: 0 <= j < |ns[parent].children| && ns[parent].children[j] < |ns|
                && ns[ns[parent].children[j]].navigation == nav
                && ns[ns[parent].children[j]].included != NotNeeded33
  }

  lemma IncludedChildPersists(ns: seq<TreeNode>, r: seq<TreeNode>, parent: NodeId, nav: Option<Navigation>)
    requires Extends(ns, r) && WellFormed(ns) && parent < |ns| && HasIncludedChild(ns, parent, nav)
    ensures HasIncludedChild(r, parent, nav)
  {
    var j :| 0 <= j < |ns[parent].children| && ns[parent].children[j] < |ns|
             && ns[ns[parent].children[j]].navigation == nav
             && ns[ns[parent].children[j]].included != NotNeeded33;
    assert r[parent].children[j] == ns[parent].children[j];
  }

  /** The part of the arena below `base` is left as it was. */
  predicate SameBelow(ns: seq<TreeNode>, r: seq<TreeNode>, base: nat)
    requires base <= |ns| && base <= |r|
  {
    forall i :: 0 <= i < base ==> r[i] == ns[i]
  }

  /** Below `base` every node keeps its children, navigation and include mode. */
  predicate SameShapeBelow(ns: seq<TreeNode>, r: seq<TreeNode>, base: nat)
    requires base <= |ns| && base <= |r|
  {
    forall i :: 0 <= i < base ==>
      r[i].children == ns[i].children && r[i].navigation == ns[i].navigation && r[i].included == ns[i].included
  }

  /** `copy` has a child marked for inclusion for the navigation of `child`,
      and below that child the include information of `child` is copied in
      turn. */
  ghost predicate CopiedChild(ns: seq<TreeNode>, child: NodeId, copy: NodeId, base: nat)
    requires WellFormed(ns) && ClosedBelow(ns, base) && child < base && copy < |ns|
    decreases base - child, 1
  {
    exists j :: 0 <= j < |ns[copy].children| && ns[copy].children[j] < |ns|
                && ns[ns[copy].children[j]].navigation == ns[child].navigation
                && ns[ns[copy].children[j]].included != NotNeeded33
                && IncludesCopied(ns, child, ns[copy].children[j], base)
  }

  /** Every child of `original` marked as a pending reference include is
      copied below `copy`, all the way down. */
  ghost predicate IncludesCopied(ns: seq<TreeNode>, original: NodeId, copy: NodeId, base: nat)
    requires WellFormed(ns) && ClosedBelow(ns, base) && original < base && copy < |ns|
    decreases base - original, 0
  {
    assert NodeOk(ns, original);
    forall k :: 0 <= k < |ns[original].children| && ns[ns[original].children[k]].included == IncludeMode.ReferencePending ==>
      CopiedChild(ns, ns[original].children[k], copy, base)
  }

  /** A copy stays a copy while the arena only grows and the part below
      `base` keeps its shape. */
  lemma {:induction false} CopiedChildPersists(ns: seq<TreeNode>, r: seq<TreeNode>, child: NodeId, copy: NodeId, base: nat)
    requires WellFormed(ns) && WellFormed(r) && ClosedBelow(ns, base) && ClosedBelow(r, base)
    requires child < base && copy < |ns| && Extends(ns, r) && SameShapeBelow(ns, r, base)
    requires CopiedChild(ns, child, copy, base)
    ensures CopiedChild(r, child, copy, base)
    decreases base - child
  {
    var j :| 0 <= j < |ns[copy].children| && ns[copy].children[j] < |ns|
             && ns[ns[copy].children[j]].navigation == ns[child].navigation
             && ns[ns[copy].children[j]].included != NotNeeded33
             && IncludesCopied(ns, child, ns[copy].children[j], base);
    var c := ns[copy].children[j];
    assert r[copy].children[j] == c;
    IncludesCopiedPersists(ns, r, child, c, base);
  }

  lemma {:induction false} IncludesCopiedPersists(ns: seq<TreeNode>, r: seq<TreeNode>, original: NodeId, copy: NodeId, base: nat)
    requires WellFormed(ns) && WellFormed(r) && ClosedBelow(ns, base) && ClosedBelow(r, base)
    requires original < base && copy < |ns| && Extends(ns, r) && SameShapeBelow(ns, r, base)
    requires IncludesCopied(ns, original, copy, base)
    ensures IncludesCopied(r, original, copy, base)
    decreases base - original, 0
  {
    assert NodeOk(ns, original);
    forall k | 0 <= k < |r[original].children| && r[r[original].children[k]].included == IncludeMode.ReferencePending
      ensures CopiedChild(r, r[original].children[k], copy, base)
    {
      CopiedChildPersists(ns, r, ns[original].children[k], copy, base);
    }
  }

  /** Every child in `cs` marked as a pending reference include has its
      include information copied below `copy` in `r`. */
  ghost predicate AllCopied(ns: seq<TreeNode>, r: seq<TreeNode>, cs: seq<NodeId>, copy: NodeId, base: nat)
    requires WellFormed(r) && ClosedBelow(r, base) && copy < |r|
  {
    forall k :: 0 <= k < |cs| && cs[k] < |ns| && cs[k] < base && ns[cs[k]].included == IncludeMode.ReferencePending ==>
      CopiedChild(r, cs[k], copy, base)
  }

  /** The children `copy` has in `r` beyond those it had in `ns` are all for
      navigations of children in `cs` marked as pending reference includes. */
  predicate GainsOnlyPending(ns: seq<TreeNode>, r: seq<TreeNode>, cs: seq<NodeId>, copy: NodeId)
    requires copy < |ns| && copy < |r|
  {
    forall j :: |ns[copy].children| <= j < |r[copy].children| ==>
      r[copy].children[j] < |r|
      && exists k :: 0 <= k < |cs| && cs[k] < |ns| && ns[cs[k]].included == IncludeMode.ReferencePending
                     && r[r[copy].children[j]].navigation == ns[cs[k]].navigation
  }

  /** A copied child is in particular an included child of the copy. */
  lemma CopiedHasIncluded(ns: seq<TreeNode>, child: NodeId, copy: NodeId, base: nat)
    requires WellFormed(ns) && ClosedBelow(ns, base) && child < base && copy < |ns|
    requires CopiedChild(ns, child, copy, base)
    ensures HasIncludedChild(ns, copy, ns[child].navigation)
  {
  }

  /** `CopyIncludeInformation(original, copy)`: every child of the original
      marked as a pending reference include is requested, for an include,
      below the copy, and its own marked children below that.  Nothing before
      the copy in the arena changes, and the copy gains children only for
      pending children of the original. */
  function CopyIncludes(ns: seq<TreeNode>, original: NodeId, copy: NodeId, base: nat): (r: seq<TreeNode>)
    requires WellFormed(ns) && ClosedBelow(ns, base) && original < base <= copy < |ns|
    ensures WellFormed(r) && ClosedBelow(r, base) && Extends(ns, r) && SameBelow(ns, r, base)
    ensures forall k :: 0 <= k < |ns[original].children| && ns[ns[original].children[k]].included == IncludeMode.ReferencePending ==>
              HasIncludedChild(r, copy, ns[ns[original].children[k]].navigation)
    ensures SameBelow(ns, r, copy) && IncludesCopied(r, original, copy, base)
    ensures GainsOnlyPending(ns, r, ns[original].children, copy)
    decreases base - original, 1
  {
    assert NodeOk(ns, original);
    var r := CopyChildren(ns, ns[original].children, original, copy, base);
    assert r[original] == ns[original];
    forall k | 0 <= k < |ns[original].children| && ns[ns[original].children[k]].included == IncludeMode.ReferencePending
      ensures HasIncludedChild(r, copy, ns[ns[original].children[k]].navigation)
    {
      CopiedHasIncluded(r, ns[original].children[k], copy, base);
    }
    r
  }

  function CopyChildren(ns: seq<TreeNode>, cs: seq<NodeId>, bound: nat, copy: NodeId, base: nat): (r: seq<TreeNode>)
    requires WellFormed(ns) && ClosedBelow(ns, base) && base <= copy < |ns|
    requires forall k :: 0 <= k < |cs| ==> bound < cs[k] < base && ns[cs[k]].parent.Some?
    ensures WellFormed(r) && ClosedBelow(r, base) && Extends(ns, r) && SameBelow(ns, r, base)
    ensures SameBelow(ns, r, copy) && AllCopied(ns, r, cs, copy, base) && GainsOnlyPending(ns, r, cs, copy)
    decreases base - bound, 0, |cs|
  {
    if cs == [] then ns
    else
      var ns1 := CopyChild(ns, cs[0], copy, base);
      var r := CopyChildren(ns1, cs[1..], bound, copy, base);
      ExtendsTransitive(ns, ns1, r);
      CopyChildrenStep(ns, ns1, r, cs, copy, base);
      r
  }

  /** The loop step of `CopyChildren`: what the first child's copy
      established survives the copies of the rest. */
  lemma CopyChildrenStep(ns: seq<TreeNode>, ns1: seq<TreeNode>, r: seq<TreeNode>, cs: seq<NodeId>, copy: NodeId, base: nat)
    requires WellFormed(ns) && WellFormed(ns1) && WellFormed(r) && ClosedBelow(ns, base) && ClosedBelow(ns1, base) && ClosedBelow(r, base)
    requires base <= copy < |ns| && cs != [] && forall k :: 0 <= k < |cs| ==> cs[k] < base
    requires Extends(ns, ns1) && Extends(ns1, r) && SameBelow(ns, ns1, copy) && SameBelow(ns1, r, copy)
    requires ns[cs[0]].included == IncludeMode.ReferencePending ==> CopiedChild(ns1, cs[0], copy, base)
    requires GainsOnlyPending(ns, ns1, [cs[0]], copy)
    requires AllCopied(ns1, r, cs[1..], copy, base) && GainsOnlyPending(ns1, r, cs[1..], copy)
    ensures SameBelow(ns, r, copy) && AllCopied(ns, r, cs, copy, base) && GainsOnlyPending(ns, r, cs, copy)
  {
    if ns[cs[0]].included == IncludeMode.ReferencePending {
      CopiedChildPersists(ns1, r, cs[0], copy, base);
    }
    forall k | 0 <= k < |cs| && cs[k] < |ns| && cs[k] < base && ns[cs[k]].included == IncludeMode.ReferencePending
      ensures CopiedChild(r, cs[k], copy, base)
    {
      if k > 0 {
        assert cs[1..][k - 1] == cs[k];
      }
    }
    forall j | |ns[copy].children| <= j < |r[copy].children|
      ensures r[copy].children[j] < |r|
              && exists k :: 0 <= k < |cs| && cs[k] < |ns| && ns[cs[k]].included == IncludeMode.ReferencePending
                             && r[r[copy].children[j]].navigation == ns[cs[k]].navigation
    {
      if j < |ns1[copy].children| {
        assert r[copy].children[j] == ns1[copy].children[j];
        var k :| 0 <= k < |[cs[0]]| && [cs[0]][k] < |ns| && ns[[cs[0]][k]].included == IncludeMode.ReferencePending
                 && ns1[ns1[copy].children[j]].navigation == ns[[cs[0]][k]].navigation;
        assert r[r[copy].children[j]].navigation == ns[cs[0]].navigation;
      } else {
        var k :| 0 <= k < |cs[1..]| && cs[1..][k] < |ns1| && ns1[cs[1..][k]].included == IncludeMode.ReferencePending
                 && r[r[copy].children[j]].navigation == ns1[cs[1..][k]].navigation;
        assert cs[1..][k] == cs[k + 1];
      }
    }
  }

  /** What `Create` does for an include below `parent`: the child it
      returns is marked for inclusion, nothing before `parent` changes, and
      the parent gains at most that child. */
  lemma CreateForInclude(ns: seq<TreeNode>, parent: NodeId, nav: Navigation)
    requires WellFormed(ns) && parent < |ns|
    ensures var (ns0, c) := CreateSpec(ns, parent, nav, true);
            SameBelow(ns, ns0, parent) && parent < c < |ns0|
            && c in ns0[parent].children && ns0[c].included != NotNeeded33
            && (ns0[parent].children == ns[parent].children || ns0[parent].children == ns[parent].children + [c])
  {
    var (ns0, c) := CreateSpec(ns, parent, nav, true);
    assert NodeOk(ns, parent);
    if FindChild(ns, ns[parent].children, nav).Some? {
      assert ns0[c] == Upgrade(ns[c], nav, true);
      assert ns0[parent] == ns[parent];
    }
  }

  /** The pending branch of `CopyChild`: the child created (or found) for
      the navigation below the copy receives the include information of the
      original child, and is the only child the copy gains. */
  lemma CopyBelowCreatedChild(ns: seq<TreeNode>, ns0: seq<TreeNode>, r: seq<TreeNode>, child: NodeId, copy: NodeId, c: NodeId, base: nat)
    requires WellFormed(r) && ClosedBelow(r, base) && child < base <= copy < c < |ns0| && copy < |ns| <= |ns0|
    requires SameBelow(ns, ns0, copy) && c in ns0[copy].children && ns0[c].included != NotNeeded33
    requires ns0[copy].children == ns[copy].children || ns0[copy].children == ns[copy].children + [c]
    requires Extends(ns0, r) && SameBelow(ns0, r, c) && IncludesCopied(r, child, c, base)
    requires r[child] == ns[child] && ns0[c].navigation == ns[child].navigation
    requires ns[child].included == IncludeMode.ReferencePending
    ensures SameBelow(ns, r, copy)
    ensures CopiedChild(r, child, copy, base)
    ensures GainsOnlyPending(ns, r, [child], copy)
  {
    assert r[copy] == ns0[copy];
    var j :| 0 <= j < |ns0[copy].children| && ns0[copy].children[j] == c;
    assert r[copy].children[j] == c && r[c].navigation == ns[child].navigation && r[c].included != NotNeeded33;
    assert CopiedChild(r, child, copy, base);
    forall j' | |ns[copy].children| <= j' < |r[copy].children|
      ensures r[copy].children[j'] < |r|
              && exists k :: 0 <= k < |[child]| && [child][k] < |ns| && ns[[child][k]].included == IncludeMode.ReferencePending
                             && r[r[copy].children[j']].navigation == ns[[child][k]].navigation
    {
      assert r[copy].children[j'] == c;
      assert [child][0] == child;
    }
  }

  /** One step of the loop: a child marked as a pending reference include is
      requested below the copy, and its own include information copied
      there; any other child changes nothing. */
  function CopyChild(ns: seq<TreeNode>, child: NodeId, copy: NodeId, base: nat): (r: seq<TreeNode>)
    requires WellFormed(ns) && ClosedBelow(ns, base) && child < base <= copy < |ns| && ns[child].parent.Some?
    ensures WellFormed(r) && ClosedBelow(r, base) && Extends(ns, r) && SameBelow(ns, r, base)
    ensures ns[child].included == IncludeMode.ReferencePending ==> HasIncludedChild(r, copy, ns[child].navigation)
    ensures SameBelow(ns, r, copy)
    ensures ns[child].included == IncludeMode.ReferencePending ==> CopiedChild(r, child, copy, base)
    ensures ns[child].included != IncludeMode.ReferencePending ==> r == ns
    ensures GainsOnlyPending(ns, r, [child], copy)
    decreases base - child, 2
  {
    assert NodeOk(ns, child);
    if ns[child].included == IncludeMode.ReferencePending then
      var nav := ns[child].navigation.value;
      var (ns0, c) := CreateSpec(ns, copy, nav, true);
      CreateExtends(ns, copy, nav, true);
      CreateForInclude(ns, copy, nav);
      var r := CopyIncludes(ns0, child, c, base);
      CopyBelowCreatedChild(ns, ns0, r, child, copy, c, base);
      CopiedHasIncluded(r, child, copy, base);
      r
    else ns
  }

  // ------------------------------------------------ CreateCollectionNavigationExpression

  /** The type of the constant holding an `INavigation`. */
  const NavigationMetadataType: ClrType := ReferenceType("INavigation")

  /** The binding of the entity that owns a collection navigation. */
  function OuterBinding(rootParameter: Param, parentId: NodeId, nav: Navigation, sourceMapping: SourceMapping): Expr {
    Binding(rootParameter, parentId, nav.declaringEntityType, sourceMapping, nav.declaringEntityType.ClrType())
  }

  /** Marking the collection node as expanded keeps the include information
      that `CopyIncludes` copied below the new root `|ns|`. */
  lemma SubqueryTreeMarked(ns: seq<TreeNode>, ns2: seq<TreeNode>, ns3: seq<TreeNode>, nodeId: NodeId)
    requires WellFormed(ns2) && ClosedBelow(ns2, |ns|) && nodeId < |ns| < |ns2|
    requires ns3 == SetExpansionMode(ns2, nodeId, ExpansionMode.ReferenceComplete)
    requires IncludesCopied(ns2, nodeId, |ns|, |ns|)
    ensures ClosedBelow(ns3, |ns|) && IncludesCopied(ns3, nodeId, |ns|, |ns|)
  {
    SetExpansionModeExtends(ns2, nodeId, ExpansionMode.ReferenceComplete);
    IncludesCopiedPersists(ns2, ns3, nodeId, |ns|, |ns|);
  }

  /** ... and each pending child still has its included counterpart there. */
  lemma SubqueryTreeMarkedChildren(ns: seq<TreeNode>, ns1: seq<TreeNode>, ns2: seq<TreeNode>, ns3: seq<TreeNode>, nodeId: NodeId)
    requires WellFormed(ns) && WellFormed(ns1) && WellFormed(ns2) && nodeId < |ns| < |ns1| <= |ns2| && NodeOk(ns, nodeId)
    requires forall i :: 0 <= i < |ns| ==> ns1[i] == ns[i]
    requires ns3 == SetExpansionMode(ns2, nodeId, ExpansionMode.ReferenceComplete)
    requires forall k :: 0 <= k < |ns1[nodeId].children| && ns1[ns1[nodeId].children[k]].included == IncludeMode.ReferencePending ==>
               HasIncludedChild(ns2, |ns|, ns1[ns1[nodeId].children[k]].navigation)
    ensures forall k :: 0 <= k < |ns[nodeId].children| && ns[nodeId].children[k] < |ns|
                        && ns[ns[nodeId].children[k]].included == IncludeMode.ReferencePending ==>
              HasIncludedChild(ns3, |ns|, ns[ns[nodeId].children[k]].navigation)
  {
    SetExpansionModeExtends(ns2, nodeId, ExpansionMode.ReferenceComplete);
    assert ns1[nodeId] == ns[nodeId];
    forall k | 0 <= k < |ns[nodeId].children| && ns[nodeId].children[k] < |ns|
               && ns[ns[nodeId].children[k]].included == IncludeMode.ReferencePending
      ensures HasIncludedChild(ns3, |ns|, ns[ns[nodeId].children[k]].navigation)
    {
      assert ns1[ns1[nodeId].children[k]] == ns[ns[nodeId].children[k]];
      IncludedChildPersists(ns2, ns3, |ns|, ns[ns[nodeId].children[k]].navigation);
    }
  }

  /** ... and the new root has no child other than those counterparts. */
  /** Every child of the new root `|ns|` in `r` has the navigation of a child
      of `nodeId` whose reference include was pending. */
  predicate RootCopiesOnlyPending(ns: seq<TreeNode>, r: seq<TreeNode>, nodeId: NodeId)
    requires nodeId < |ns| < |r|
  {
    forall j :: 0 <= j < |r[|ns|].children| ==>
      r[|ns|].children[j] < |r|
      && exists k :: 0 <= k < |ns[nodeId].children| && ns[nodeId].children[k] < |ns|
                     && ns[ns[nodeId].children[k]].included == IncludeMode.ReferencePending
                     && r[r[|ns|].children[j]].navigation == ns[ns[nodeId].children[k]].navigation
  }

  lemma SubqueryTreeMarkedOnly(ns: seq<TreeNode>, ns1: seq<TreeNode>, ns2: seq<TreeNode>, ns3: seq<TreeNode>, nodeId: NodeId)
    requires WellFormed(ns) && WellFormed(ns1) && WellFormed(ns2) && nodeId < |ns| < |ns1| <= |ns2| && NodeOk(ns, nodeId)
    requires forall i :: 0 <= i < |ns| ==> ns1[i] == ns[i]
    requires ns3 == SetExpansionMode(ns2, nodeId, ExpansionMode.ReferenceComplete)
    requires ns1[|ns|].children == [] && GainsOnlyPending(ns1, ns2, ns1[nodeId].children, |ns|)
    ensures RootCopiesOnlyPending(ns, ns3, nodeId)
  {
    assert ns3[|ns|] == ns2[|ns|];
    assert ns1[nodeId] == ns[nodeId];
    forall j | 0 <= j < |ns3[|ns|].children|
      ensures exists k :: 0 <= k < |ns[nodeId].children| && ns[ns[nodeId].children[k]].included == IncludeMode.ReferencePending
                          && ns3[ns3[|ns|].children[j]].navigation == ns[ns[nodeId].children[k]].navigation
    {
      var k :| 0 <= k < |ns1[nodeId].children| && ns1[nodeId].children[k] < |ns1|
               && ns1[ns1[nodeId].children[k]].included == IncludeMode.ReferencePending
               && ns2[ns2[|ns|].children[j]].navigation == ns1[ns1[nodeId].children[k]].navigation;
      assert NodeOk(ns, nodeId);
      assert ns1[ns1[nodeId].children[k]] == ns[ns[nodeId].children[k]];
    }
  }

  /** The arena changes made for the subquery of collection node `nodeId`:
      a fresh root for the dependent entity type, the include information
      below the collection node copied under it, and the collection node
      marked as expanded. */
  function SubqueryTree(ns: seq<TreeNode>, nodeId: NodeId, element: EntityType): (r: seq<TreeNode>)
    requires WellFormed(ns) && nodeId < |ns|
    ensures WellFormed(r) && Extends(ns, r) && |r| > |ns|
    ensures r[nodeId] == ns[nodeId].(expansionMode := ExpansionMode.ReferenceComplete)
    ensures forall i :: 0 <= i < |ns| && i != nodeId ==> r[i] == ns[i]
    ensures r[|ns|].navigation.None? && r[|ns|].fromMappings == [[]]
    ensures forall k :: 0 <= k < |ns[nodeId].children| && ns[nodeId].children[k] < |ns|
                        && ns[ns[nodeId].children[k]].included == IncludeMode.ReferencePending ==>
              HasIncludedChild(r, |ns|, ns[ns[nodeId].children[k]].navigation)
    ensures ClosedBelow(r, |ns|) && IncludesCopied(r, nodeId, |ns|, |ns|)
    ensures RootCopiesOnlyPending(ns, r, nodeId)
  {
    var (ns1, root) := CreateRootSpec(ns, SourceMapping(element, None), [], false);
    assert ClosedBelow(ns1, |ns|) by {
      forall i, k | 0 <= i < |ns| && 0 <= k < |ns1[i].children| ensures ns1[i].children[k] < |ns| {
        assert NodeOk(ns, i);
      }
    }
    var ns2 := CopyIncludes(ns1, nodeId, root, |ns|);
    var ns3 := SetExpansionMode(ns2, nodeId, ExpansionMode.ReferenceComplete);
    SetExpansionModeExtends(ns2, nodeId, ExpansionMode.ReferenceComplete);
    ExtendsTransitive(ns, ns1, ns2);
    ExtendsTransitive(ns, ns2, ns3);
    assert ns1[root].children == [];
    SubqueryTreeMarked(ns, ns2, ns3, nodeId);
    assert NodeOk(ns, nodeId);
    SubqueryTreeMarkedChildren(ns, ns1, ns2, ns3, nodeId);
    SubqueryTreeMarkedOnly(ns, ns1, ns2, ns3, nodeId);
    ns3
  }

  /** The expansion over the entity set of `element` that starts the subquery:
      its source is the entity set, it maps `element` to the new root `root`,
      and its pending selector is the binding of `p` to that root, not yet applied. */
  function EntitySetRoot(element: EntityType, root: NodeId, p: Param): (r: Expr)
    ensures r.ExpansionRoot? && r.navigationExpansion.Expansion? && r.mapping == []
    ensures r.navigationExpansion.operand == Constant(EntityQueryable(element.ClrType()), SequenceOf(IQueryable, element.ClrType()))
    ensures r.navigationExpansion.state
              == State(p, [SourceMapping(element, Some(root))],
                       Selector(p, Binding(p, root, element, SourceMapping(element, Some(root)), p.paramType)),
                       false, [], None, None, [], [], None)
    ensures TypeOf(r) == SequenceOf(IQueryable, element.ClrType())
  {
    var sm := SourceMapping(element, Some(root));
    var queryableType := SequenceOf(IQueryable, element.ClrType());
    var state := State(p, [sm], Selector(p, Binding(p, root, element, sm, p.paramType)), false, [], None, None, [], [], None);
    ExpansionRoot(Expansion(Constant(EntityQueryable(element.ClrType()), queryableType), state, queryableType), [], queryableType)
  }

  /** The correlation `inner => <outer's principal key> == <inner's foreign key>`
      of a collection navigation, guarded by the null check on `outer`. */
  function Correlation(outer: Expr, optional: bool, nav: Navigation, inner: Param): (r: Expr)
    ensures r.Lambda? && r.parameters == [inner]
    ensures r.body == CreateKeyComparison(CreateKeyAccess(outer, nav.foreignKey.principalKey, optional),
                                          CreateKeyAccess(Parameter(inner), nav.foreignKey.properties, false), outer)
  {
    Lambda(CreateKeyComparison(CreateKeyAccess(outer, nav.foreignKey.principalKey, optional),
                               CreateKeyAccess(Parameter(inner), nav.foreignKey.properties, false), outer), [inner])
  }

  /** `Where(<expansion over the entity set of element>, inner => correlation)`,
      with the parameters numbered `firstId` and `firstId + 1`. */
  function SubqueryWhere(element: EntityType, root: NodeId, firstId: nat, outer: Expr, optional: bool, nav: Navigation): (r: Expr)
    ensures r.Call? && r.callee == QueryableWhere && r.receiver.None? && |r.arguments| == 2
    ensures r.callType == SequenceOf(IQueryable, element.ClrType())
    ensures r.arguments[0] == EntitySetRoot(element, root, Param(firstId, "", element.ClrType()))
    ensures r.arguments[1] == Correlation(outer, optional, nav, Param(firstId + 1, GenerateParameterName(element.ClrType()), element.ClrType()))
  {
    var elementType := element.ClrType();
    Call(QueryableWhere, [elementType], None,
         [EntitySetRoot(element, root, Param(firstId, "", elementType)),
          Correlation(outer, optional, nav, Param(firstId + 1, GenerateParameterName(elementType), elementType))],
         SequenceOf(IQueryable, elementType))
  }

  /** `CreateCollectionNavigationExpression`: the entity set of the dependent
      type, wrapped in a fresh expansion whose navigation tree copies the
      pending includes below the collection node, filtered by the correlation
      of its foreign key with the owner's principal key.  The collection node
      is marked expanded. */
  function CreateCollectionNavigationExpression(ctx: Ctx, nodeId: NodeId, rootParameter: Param, sourceMapping: SourceMapping): (r: (Expr, Ctx))
    requires WellFormed(ctx.nodes) && nodeId < |ctx.nodes| && ctx.nodes[nodeId].navigation.Some?
    ensures ctx.nodes[nodeId].parent.Some? && ctx.nodes[nodeId].parent.value < |ctx.nodes|
    ensures Advances(ctx, r.1) && r.1.nextParameterId == ctx.nextParameterId + 2
    ensures r.1.nodes == SubqueryTree(ctx.nodes, nodeId, ctx.nodes[nodeId].navigation.value.foreignKey.declaringEntityType)
    // Where(<expansion over the entity set>, inner => correlation)
    ensures var element := ctx.nodes[nodeId].navigation.value.foreignKey.declaringEntityType;
            r.0.Call? && r.0.callee == QueryableWhere && r.0.receiver.None? && |r.0.arguments| == 2
            && r.0.callType == SequenceOf(IQueryable, element.ClrType())
            // the expansion's pending selector is the fresh parameter's binding to the new root
            && r.0.arguments[0] == EntitySetRoot(element, |ctx.nodes|, Param(ctx.nextParameterId, "", element.ClrType()))
    // inner => the parent's principal key compared with inner's foreign key
    ensures var ns := ctx.nodes;
            var nav := ns[nodeId].navigation.value;
            var element := nav.foreignKey.declaringEntityType;
            var parentId := ns[nodeId].parent.value;
            r.0.Call? && |r.0.arguments| == 2
            && r.0.arguments[1] == Correlation(OuterBinding(rootParameter, parentId, nav, sourceMapping), ns[parentId].optional, nav,
                                               Param(ctx.nextParameterId + 1, GenerateParameterName(element.ClrType()), element.ClrType()))
  {
    var ns := ctx.nodes;
    assert NodeOk(ns, nodeId);
    var nav := ns[nodeId].navigation.value;
    var element := nav.foreignKey.declaringEntityType;
    var parentId := ns[nodeId].parent.value;
    var tree := SubqueryTree(ns, nodeId, element);
    // the pending selector's parameter and then the correlation's inner parameter are fresh
    var e := SubqueryWhere(element, |ns|, ctx.nextParameterId,
                           OuterBinding(rootParameter, parentId, nav, sourceMapping), ns[parentId].optional, nav);
    (e, Ctx(tree, ctx.nextParameterId + 2))
  }


  // ------------------------------------------------ the visitor

  /** `RemoveMaterializeCollectionNavigationMethodCall`: exactly one
      materialising wrapper is taken off. */
  function RemoveMaterialize(e: Expr): (r: Result<Expr>)
    ensures !(e.Call? && e.callee == MaterializeCollectionNavigationMethod) ==> r == Ok(e)
    ensures e.Call? && e.callee == MaterializeCollectionNavigationMethod ==>
              (r.Ok? <==> |e.arguments| > 0) && (r.Ok? ==> r.value == e.arguments[0])
  {
    if e.Call? && e.callee == MaterializeCollectionNavigationMethod then
      if |e.arguments| > 0 then Ok(e.arguments[0]) else Err(Argument(IndexOutOfRange))
    else Ok(e)
  }

  /** A binding to a node with a parent and a collection navigation. */
  predicate IsCollectionBinding(ns: seq<TreeNode>, e: Expr) {
    e.Binding? && e.navigationTreeNode < |ns|
    && ns[e.navigationTreeNode].parent.Some?
    && ns[e.navigationTreeNode].navigation.Some?
    && ns[e.navigationTreeNode].navigation.value.isCollection
  }

  predicate IsListExists(m: Method) {
    m.Method? && m.name == "Exists" && m.declaringType == ListOfT
  }

  /** `Contains(x)` called on a binding of a collection navigation. */
  predicate IsCollectionContains(ns: seq<TreeNode>, e: Expr) {
    e.Call? && e.callee.Method? && e.callee.name == "Contains" && |e.arguments| == 1
    && e.receiver.Some? && e.receiver.value.Binding?
    && e.receiver.value.navigationTreeNode < |ns|
    && ns[e.receiver.value.navigationTreeNode].navigation.Some?
    && ns[e.receiver.value.navigationTreeNode].navigation.value.isCollection
  }

  /** `Visit`: method calls, member accesses, lambdas and the extension
      nodes have their own rules; every other node is visited child by child
      and rebuilt only when a child changed. */
  function Rewrite(ctx: Ctx, e: Expr): (r: Result<(Expr, Ctx)>)
    requires WellFormed(ctx.nodes)
    ensures r.Ok? ==> Advances(ctx, r.value.1)
    ensures e.Parameter? || e.Constant? ==> r == Ok((e, ctx))
    // a lambda has its body visited and keeps its parameters; it is rebuilt only when the body changed
    ensures e.Lambda? && Rewrite(ctx, e.body).Err? ==> r.Err?
    ensures e.Lambda? && r.Ok? ==>
              var body := Rewrite(ctx, e.body);
              body.Ok? && r.value == (if body.value.0 != e.body then Lambda(body.value.0, e.parameters) else e, body.value.1)
    ensures e.Lambda? && Rewrite(ctx, e.body).Ok? ==> r.Ok?
    ensures e.Call? ==> r == RewriteCall(ctx, e)
    ensures e.Member? ==> r == RewriteMember(ctx, e)
    ensures IsExtension(e) ==> r == RewriteExtension(ctx, e)
    // any other node has its children visited in order and is rebuilt only when one changed
    ensures !e.Lambda? && !e.Call? && !e.Member? && !IsExtension(e) && r.Ok? ==>
              var children := RewriteAll(ctx, Children(e), e, false);
              children.Ok?
              && r.value == (if children.value.0 != Children(e) then Rebuild(e, children.value.0) else e, children.value.1)
    ensures !e.Lambda? && !e.Call? && !e.Member? && !IsExtension(e) ==> (r.Ok? <==> RewriteAll(ctx, Children(e), e, false).Ok?)
    decreases e, 2
  {
    if e.Lambda? then
      var x :- Rewrite(ctx, e.body);
      Ok((if x.0 != e.body then Lambda(x.0, e.parameters) else e, x.1))
    else if e.Call? then RewriteCall(ctx, e)
    else if e.Member? then RewriteMember(ctx, e)
    else if IsExtension(e) then RewriteExtension(ctx, e)
    else
      var x :- RewriteAll(ctx, Children(e), e, false);
      Ok((if x.0 != Children(e) then Rebuild(e, x.0) else e, x.1))
  }

  /** Visits a list of sub-expressions in order, taking one materialising
      wrapper off each result when `strip` is set. */
  function RewriteAll(ctx: Ctx, cs: seq<Expr>, bound: Expr, strip: bool): (r: Result<(seq<Expr>, Ctx)>)
    requires WellFormed(ctx.nodes)
    requires forall k :: 0 <= k < |cs| ==> cs[k] < bound
    ensures r.Ok? ==> Advances(ctx, r.value.1) && |r.value.0| == |cs|
    ensures cs == [] ==> r == Ok(([], ctx))
    // the first part is visited in the given context, the rest in the context that visit leaves
    ensures cs != [] && Rewrite(ctx, cs[0]).Err? ==> r.Err?
    ensures cs != [] && r.Ok? ==>
              var first := Rewrite(ctx, cs[0]);
              first.Ok? && (if strip then RemoveMaterialize(first.value.0) else Ok(first.value.0)) == Ok(r.value.0[0])
              && RewriteAll(first.value.1, cs[1..], bound, strip) == Ok((r.value.0[1..], r.value.1))
    // it succeeds exactly when every visit and every unwrapping does
    ensures cs != [] ==>
              (r.Ok? <==> var first := Rewrite(ctx, cs[0]);
                          first.Ok? && (strip ==> RemoveMaterialize(first.value.0).Ok?)
                          && RewriteAll(first.value.1, cs[1..], bound, strip).Ok?)
    decreases bound, 0, |cs|
  {
    if cs == [] then Ok(([], ctx))
    else
      var x :- Rewrite(ctx, cs[0]);
      var first :- if strip then RemoveMaterialize(x.0) else Ok(x.0);
      var rest :- RewriteAll(x.1, cs[1..], bound, strip);
      ExtendsTransitive(ctx.nodes, x.1.nodes, rest.1.nodes);
      Ok(([first] + rest.0, rest.1))
  }

  /** `VisitMethodCall`. */
  function RewriteCall(ctx: Ctx, e: Expr): (r: Result<(Expr, Ctx)>)
    requires WellFormed(ctx.nodes) && e.Call?
    ensures r.Ok? ==> Advances(ctx, r.value.1)
    // Include and plain SelectMany are left alone
    ensures IsIncludeMethod(e.callee) || e.callee == QueryableSelectMany ==> r == Ok((e, ctx))
    // SelectMany with a result selector: only the result selector is visited
    ensures !IsIncludeMethod(e.callee) && e.callee == QueryableSelectManyWithResultOperator && r.Ok? ==>
              r.value.0.Call? && |e.arguments| >= 3 && r.value.0 == Call(e.callee, e.typeArguments, e.receiver, r.value.0.arguments, e.callType) && |r.value.0.arguments| == |e.arguments|
              && r.value.0.arguments[..2] == e.arguments[..2] && r.value.0.arguments[3..] == e.arguments[3..]
    // List.Exists(p) -> Enumerable.Any(list, p)
    ensures !IsIncludeMethod(e.callee) && IsListExists(e.callee) && r.Ok? ==>
              var a := r.value.0;
              a.Call? && a.callee == EnumerableAnyPredicate && a.receiver.None? && |a.arguments| == 2
              && a.arguments[1].Lambda? && |a.arguments[1].parameters| == 1
    // collection.Contains(x) -> Enumerable.Any(collection, c => c == x)
    ensures !IsIncludeMethod(e.callee) && !IsListExists(e.callee) && e.callee != QueryableSelectMany
            && e.callee != QueryableSelectManyWithResultOperator && IsCollectionContains(ctx.nodes, e) && r.Ok? ==>
              var a := r.value.0;
              a.Call? && a.callee == EnumerableAnyPredicate && a.receiver.None? && |a.arguments| == 2
              && a.arguments[1].Lambda? && |a.arguments[1].parameters| == 1
              && a.arguments[1].body.Binary? && a.arguments[1].body.op == Equal
              && a.arguments[1].body.left == Parameter(a.arguments[1].parameters[0])
              && a.arguments[1].parameters[0].id >= ctx.nextParameterId
    // each rule is the function of that name
    ensures !IsIncludeMethod(e.callee) && e.callee == QueryableSelectManyWithResultOperator ==>
              r == (if |e.arguments| < 3 then Err(Argument(IndexOutOfRange)) else RewriteResultSelector(ctx, e))
    ensures !IsIncludeMethod(e.callee) && e.callee != QueryableSelectMany
            && e.callee != QueryableSelectManyWithResultOperator && IsListExists(e.callee) ==>
              r == RewriteListExists(ctx, e)
    ensures !IsIncludeMethod(e.callee) && e.callee != QueryableSelectMany
            && e.callee != QueryableSelectManyWithResultOperator && !IsListExists(e.callee) && IsCollectionContains(ctx.nodes, e) ==>
              r == RewriteContains(ctx, e)
    ensures !IsIncludeMethod(e.callee) && e.callee != QueryableSelectMany
            && e.callee != QueryableSelectManyWithResultOperator && !IsListExists(e.callee) && !IsCollectionContains(ctx.nodes, e) ==>
              r == RewriteOtherCall(ctx, e)
    decreases e, 1, 1
  {
    if IsIncludeMethod(e.callee) || e.callee == QueryableSelectMany then Ok((e, ctx))
    else if e.callee == QueryableSelectManyWithResultOperator then
      if |e.arguments| < 3 then Err(Argument(IndexOutOfRange))
      else RewriteResultSelector(ctx, e)
    else if IsListExists(e.callee) then RewriteListExists(ctx, e)
    else if IsCollectionContains(ctx.nodes, e) then RewriteContains(ctx, e)
    else RewriteOtherCall(ctx, e)
  }

  /** `SelectMany` with a result selector: only the result selector (the
      third argument) is visited. */
  function RewriteResultSelector(ctx: Ctx, e: Expr): (r: Result<(Expr, Ctx)>)
    requires WellFormed(ctx.nodes) && e.Call? && |e.arguments| >= 3
    ensures r.Ok? ==> Advances(ctx, r.value.1)
    ensures r.Ok? ==>
              r.value.0.Call? && r.value.0 == Call(e.callee, e.typeArguments, e.receiver, r.value.0.arguments, e.callType) && |r.value.0.arguments| == |e.arguments|
              && r.value.0.arguments[..2] == e.arguments[..2] && r.value.0.arguments[3..] == e.arguments[3..]
    // the result selector is visited; a failure is the result, and the call is
    // rebuilt over the visited selector only when it changed
    ensures e.arguments[2] in Children(e)
    ensures Rewrite(ctx, e.arguments[2]).Err? ==> r == Err(Rewrite(ctx, e.arguments[2]).failure)
    ensures Rewrite(ctx, e.arguments[2]).Ok? ==>
              var x := Rewrite(ctx, e.arguments[2]).value;
              r == Ok((if x.0 != e.arguments[2] then Call(e.callee, e.typeArguments, e.receiver, e.arguments[2 := x.0], e.callType) else e,
                       x.1))
    decreases e, 1, 0
  {
    assert e.arguments[2] in Children(e);
    var x :- Rewrite(ctx, e.arguments[2]);
    Ok((if x.0 != e.arguments[2] then Call(e.callee, e.typeArguments, e.receiver, e.arguments[2 := x.0], e.callType) else e, x.1))
  }

  /** `List.Exists(p)` becomes `Enumerable.Any(list, p)`. */
  function RewriteListExists(ctx: Ctx, e: Expr): (r: Result<(Expr, Ctx)>)
    requires WellFormed(ctx.nodes) && e.Call?
    ensures r.Ok? ==> Advances(ctx, r.value.1)
    ensures r.Ok? ==>
              var a := r.value.0;
              a.Call? && a.callee == EnumerableAnyPredicate && a.receiver.None? && |a.arguments| == 2
              && a.arguments[1].Lambda? && |a.arguments[1].parameters| == 1
    // the list is the visited receiver without its materialising wrapper, and the
    // predicate is the visited argument, its body over its first parameter
    ensures r.Ok? ==>
              e.receiver.Some? && |e.arguments| > 0 && e.arguments[0] in Children(e)
              && var caller := Rewrite(ctx, e.receiver.value);
              caller.Ok? && RemoveMaterialize(caller.value.0).Ok?
              && var newCaller := RemoveMaterialize(caller.value.0).value;
              var newPredicate := Rewrite(caller.value.1, e.arguments[0]);
              newPredicate.Ok? && newPredicate.value.0.Lambda? && |newPredicate.value.0.parameters| > 0
              && SequenceTypeOf(newCaller).Ok?
              && r.value == (Call(EnumerableAnyPredicate, [SequenceTypeOf(newCaller).value], None,
                                  [newCaller, Lambda(newPredicate.value.0.body, [newPredicate.value.0.parameters[0]])], BoolType),
                             newPredicate.value.1)
    // without a list object or a predicate argument the call fails; otherwise
    // it succeeds when every visit succeeds and the predicate is a lambda
    ensures e.receiver.None? || |e.arguments| == 0 ==> r.Err?
    ensures (e.receiver.Some? && |e.arguments| > 0 && e.arguments[0] in Children(e)
             && var caller := Rewrite(ctx, e.receiver.value);
             caller.Ok? && RemoveMaterialize(caller.value.0).Ok?
             && var newPredicate := Rewrite(caller.value.1, e.arguments[0]);
             newPredicate.Ok? && newPredicate.value.0.Lambda? && |newPredicate.value.0.parameters| > 0
             && SequenceTypeOf(RemoveMaterialize(caller.value.0).value).Ok?)
            ==> r.Ok?
    decreases e, 1, 0
  {
    if e.receiver.None? then
      // the null list is dereferenced only after the predicate is visited
      if |e.arguments| == 0 then Err(Argument(IndexOutOfRange))
      else
        assert e.arguments[0] in Children(e);
        var visited :- Rewrite(ctx, e.arguments[0]);
        Err(NullReference(NullReferenceMessage))
    else
      var caller :- Rewrite(ctx, e.receiver.value);
      var newCaller :- RemoveMaterialize(caller.0);
      if |e.arguments| == 0 then Err(Argument(IndexOutOfRange))
      else
        assert e.arguments[0] in Children(e);
        var newPredicate :- Rewrite(caller.1, e.arguments[0]);
        ExtendsTransitive(ctx.nodes, caller.1.nodes, newPredicate.1.nodes);
        var elementType :- SequenceTypeOf(newCaller);
        if !newPredicate.0.Lambda? then Err(InvalidCast(CastToLambda))
        else if |newPredicate.0.parameters| == 0 then Err(Argument(IndexOutOfRange))
        else
          Ok((Call(EnumerableAnyPredicate, [elementType], None,
                   [newCaller, Lambda(newPredicate.0.body, [newPredicate.0.parameters[0]])], BoolType),
              newPredicate.1))
  }

  /** `collection.Contains(x)` becomes `Enumerable.Any(collection, c => c == x)`
      with a fresh lambda parameter. */
  function RewriteContains(ctx: Ctx, e: Expr): (r: Result<(Expr, Ctx)>)
    requires WellFormed(ctx.nodes) && IsCollectionContains(ctx.nodes, e)
    ensures r.Ok? ==> Advances(ctx, r.value.1)
    ensures r.Ok? ==>
              var a := r.value.0;
              a.Call? && a.callee == EnumerableAnyPredicate && a.receiver.None? && |a.arguments| == 2
              && a.arguments[1].Lambda? && |a.arguments[1].parameters| == 1
              && a.arguments[1].body.Binary? && a.arguments[1].body.op == Equal
              && a.arguments[1].body.left == Parameter(a.arguments[1].parameters[0])
              && a.arguments[1].parameters[0].id >= ctx.nextParameterId
    // the collection is the visited receiver without its materialising wrapper;
    // the lambda compares its fresh parameter, named after the element type,
    // with the visited argument
    ensures r.Ok? ==>
              e.arguments[0] in Children(e)
              && var caller := Rewrite(ctx, e.receiver.value);
              caller.Ok? && RemoveMaterialize(caller.value.0).Ok?
              && var newCaller := RemoveMaterialize(caller.value.0).value;
              var argument := Rewrite(caller.value.1, e.arguments[0]);
              argument.Ok? && SequenceTypeOf(newCaller).Ok?
              && var elementType := SequenceTypeOf(newCaller).value;
              var p := Param(argument.value.1.nextParameterId, GenerateParameterName(elementType), elementType);
              r.value.0 == Call(EnumerableAnyPredicate, [elementType], None,
                                [newCaller, Lambda(Binary(Equal, Parameter(p), argument.value.0), [p])], BoolType)
              && r.value.1 == Ctx(argument.value.1.nodes, argument.value.1.nextParameterId + 1)
    // it succeeds when every visit succeeds and the collection is a sequence
    ensures (e.arguments[0] in Children(e)
             && var caller := Rewrite(ctx, e.receiver.value);
             caller.Ok? && RemoveMaterialize(caller.value.0).Ok?
             && Rewrite(caller.value.1, e.arguments[0]).Ok?
             && SequenceTypeOf(RemoveMaterialize(caller.value.0).value).Ok?)
            ==> r.Ok?
    decreases e, 1, 0
  {
    assert e.arguments[0] in Children(e);
    var caller :- Rewrite(ctx, e.receiver.value);
    var newCaller :- RemoveMaterialize(caller.0);
    var argument :- Rewrite(caller.1, e.arguments[0]);
    var elementType :- SequenceTypeOf(newCaller);
    var (lambdaParameter, ctx') := FreshParameter(argument.1, GenerateParameterName(elementType), elementType);
    ExtendsTransitive(ctx.nodes, caller.1.nodes, argument.1.nodes);
    var lambda := Lambda(Binary(Equal, Parameter(lambdaParameter), argument.0), [lambdaParameter]);
    Ok((Call(EnumerableAnyPredicate, [elementType], None, [newCaller, lambda], BoolType), ctx'))
  }

  /** Any other call: the receiver and the arguments are visited, each with
      one materialising wrapper taken off, and the call is rebuilt only when
      one of them changed. */
  function RewriteOtherCall(ctx: Ctx, e: Expr): (r: Result<(Expr, Ctx)>)
    requires WellFormed(ctx.nodes) && e.Call?
    ensures r.Ok? ==> Advances(ctx, r.value.1)
    ensures r.Ok? && r.value.0 != e ==>
              r.value.0.Call? && r.value.0.callee == e.callee && |r.value.0.arguments| == |e.arguments|
    // the receiver is visited first and unwrapped, then the arguments in the context it leaves
    ensures r.Ok? && e.receiver.None? ==>
              (forall k :: 0 <= k < |e.arguments| ==> e.arguments[k] in Children(e))
              && var arguments := RewriteAll(ctx, e.arguments, e, true);
              arguments.Ok?
              && r.value == (if arguments.value.0 != e.arguments
                             then Call(e.callee, e.typeArguments, None, arguments.value.0, e.callType) else e,
                             arguments.value.1)
    ensures r.Ok? && e.receiver.Some? ==>
              (forall k :: 0 <= k < |e.arguments| ==> e.arguments[k] in Children(e))
              && var x := Rewrite(ctx, e.receiver.value);
              x.Ok? && RemoveMaterialize(x.value.0).Ok?
              && var newObject := RemoveMaterialize(x.value.0).value;
              var arguments := RewriteAll(x.value.1, e.arguments, e, true);
              arguments.Ok?
              && r.value == (if newObject != e.receiver.value || arguments.value.0 != e.arguments
                             then Call(e.callee, e.typeArguments, Some(newObject), arguments.value.0, e.callType) else e,
                             arguments.value.1)
    // it succeeds exactly when the visits and the unwrapping of the receiver do
    ensures e.receiver.None? ==> (r.Ok? <==> RewriteAll(ctx, e.arguments, e, true).Ok?)
    ensures e.receiver.Some? ==>
              (r.Ok? <==> var x := Rewrite(ctx, e.receiver.value);
                          x.Ok? && RemoveMaterialize(x.value.0).Ok? && RewriteAll(x.value.1, e.arguments, e, true).Ok?)
    decreases e, 1, 0
  {
    assert forall k :: 0 <= k < |e.arguments| ==> e.arguments[k] in Children(e);
    var newObject :-
      if e.receiver.Some? then
        var x :- Rewrite(ctx, e.receiver.value);
        var stripped :- RemoveMaterialize(x.0);
        Ok((Some(stripped), x.1))
      else Ok((None, ctx));
    var arguments :- RewriteAll(newObject.1, e.arguments, e, true);
    ExtendsTransitive(ctx.nodes, newObject.1.nodes, arguments.1.nodes);
    Ok((if newObject.0 != e.receiver || arguments.0 != e.arguments
        then Call(e.callee, e.typeArguments, newObject.0, arguments.0, e.callType)
        else e,
        arguments.1))
  }

  /** `VisitMember`: `Count` read from a rewritten collection becomes
      `Queryable.Count`; any other member is read from the unwrapped source,
      and the node is rebuilt only when that source changed. */
  function RewriteMember(ctx: Ctx, e: Expr): (r: Result<(Expr, Ctx)>)
    requires WellFormed(ctx.nodes) && e.Member?
    ensures r.Ok? ==> Advances(ctx, r.value.1)
    ensures r.Ok? && r.value.0 != e ==>
              (e.member == "Count" ==>
                 r.value.0.Call? && r.value.0.callee == QueryableCount && |r.value.0.arguments| == 1
                 && r.value.0.arguments[0] != e.source && TypeOf(r.value.0) == IntType)
              && (e.member != "Count" ==>
                 r.value.0.Member? && r.value.0.member == e.member && r.value.0.source != e.source
                 && r.value.0.memberType == e.memberType)
    // the source is visited and unwrapped; an unchanged source keeps the node, a
    // changed one is counted with `Queryable.Count` or has the member read from it
    ensures Rewrite(ctx, e.source).Err? ==> r.Err?
    ensures r.Ok? ==>
              var x := Rewrite(ctx, e.source);
              x.Ok? && RemoveMaterialize(x.value.0).Ok? && r.value.1 == x.value.1
              && var newSource := RemoveMaterialize(x.value.0).value;
              (newSource == e.source ==> r.value.0 == e)
              && (newSource != e.source && e.member == "Count" ==>
                    SequenceTypeOf(newSource).Ok?
                    && r.value.0 == Call(QueryableCount, [SequenceTypeOf(newSource).value], None, [newSource], IntType))
              && (newSource != e.source && e.member != "Count" ==> r.value.0 == Member(newSource, e.member, e.memberType))
    // it succeeds when the visit does and, for a changed `Count`, the new source is a sequence
    ensures var x := Rewrite(ctx, e.source);
            (x.Ok? && RemoveMaterialize(x.value.0).Ok?
             && (RemoveMaterialize(x.value.0).value != e.source && e.member == "Count" ==>
                   SequenceTypeOf(RemoveMaterialize(x.value.0).value).Ok?))
            ==> r.Ok?
    decreases e, 1, 1
  {
    var x :- Rewrite(ctx, e.source);
    var newSource :- RemoveMaterialize(x.0);
    if newSource != e.source then
      if e.member == "Count" then
        var elementType :- SequenceTypeOf(newSource);
        Ok((Call(QueryableCount, [elementType], None, [newSource], IntType), x.1))
      else Ok((Member(newSource, e.member, e.memberType), x.1))
    else Ok((e, x.1))
  }

  /** `VisitExtension`. */
  function RewriteExtension(ctx: Ctx, e: Expr): (r: Result<(Expr, Ctx)>)
    requires WellFormed(ctx.nodes) && IsExtension(e)
    ensures r.Ok? ==> Advances(ctx, r.value.1)
    // a collection binding becomes Materialize(Where(entity set, correlation), navigation)
    ensures IsCollectionBinding(ctx.nodes, e) ==> r == MaterializeBinding(ctx, e)
    // every other binding, include, root and unknown node is left alone
    ensures ((e.Binding? && !IsCollectionBinding(ctx.nodes, e)) || e.Include? || e.ExpansionRoot?
             || e.CustomRoot? || e.UnknownExtension?) ==> r == Ok((e, ctx))
    // the other kinds go to their own rewrites
    ensures e.CorrelationPredicate? ==> r == RewriteCorrelation(ctx, e)
    ensures e.Expansion? ==> r == RewriteExpansion(ctx, e)
    ensures e.NullConditional? ==> r == RewriteNullConditional(ctx, e)
    decreases e, 1, 1
  {
    if e.Binding? then RewriteBinding(ctx, e)
    else if e.CorrelationPredicate? then RewriteCorrelation(ctx, e)
    else if e.Expansion? then RewriteExpansion(ctx, e)
    else if e.NullConditional? then RewriteNullConditional(ctx, e)
    else Ok((e, ctx))
  }

  /** A binding of a collection navigation is materialised; any other
      binding is left as it is. */
  function RewriteBinding(ctx: Ctx, e: Expr): (r: Result<(Expr, Ctx)>)
    requires WellFormed(ctx.nodes) && e.Binding?
    ensures r.Ok? && Advances(ctx, r.value.1)
    ensures IsCollectionBinding(ctx.nodes, e) ==> r == MaterializeBinding(ctx, e)
    ensures !IsCollectionBinding(ctx.nodes, e) ==> r == Ok((e, ctx))
  {
    if IsCollectionBinding(ctx.nodes, e) then MaterializeBinding(ctx, e)
    else Ok((e, ctx))
  }

  /** A binding of a collection navigation becomes the correlated subquery
      over the target entity set, wrapped in the materialising call. */
  function MaterializeBinding(ctx: Ctx, e: Expr): (r: Result<(Expr, Ctx)>)
    requires WellFormed(ctx.nodes) && IsCollectionBinding(ctx.nodes, e)
    ensures r.Ok? && Advances(ctx, r.value.1)
    ensures r.Ok? ==>
              var m := r.value.0;
              var nav := ctx.nodes[e.navigationTreeNode].navigation.value;
              m.Call? && m.callee == MaterializeCollectionNavigationMethod && |m.arguments| == 2
              && m.arguments[1] == Constant(NavigationConstant(nav), NavigationMetadataType)
              && CreateCollectionNavigationExpression(ctx, e.navigationTreeNode, e.rootParameter, e.sourceMapping)
                 == (m.arguments[0], r.value.1)
  {
    var nav := ctx.nodes[e.navigationTreeNode].navigation.value;
    var result := CreateCollectionNavigationExpression(ctx, e.navigationTreeNode, e.rootParameter, e.sourceMapping);
    var elementType := nav.foreignKey.declaringEntityType.ClrType();
    Ok((Call(MaterializeCollectionNavigationMethod, [elementType], None,
             [result.0, Constant(NavigationConstant(nav), NavigationMetadataType)], nav.clrType),
        result.1))
  }

  /** A correlation predicate has its null check and its key comparison
      visited; the comparison must stay a binary node. */
  function RewriteCorrelation(ctx: Ctx, e: Expr): (r: Result<(Expr, Ctx)>)
    requires WellFormed(ctx.nodes) && e.CorrelationPredicate?
    ensures r.Ok? ==> Advances(ctx, r.value.1)
    ensures r.Ok? ==> r.value.0.CorrelationPredicate? && r.value.0.equalExpression.Binary?
    // both parts are visited in order; the node is rebuilt only when one changed
    ensures r.Ok? ==>
              var nullCheck := Rewrite(ctx, e.outerKeyNullCheck);
              nullCheck.Ok?
              && var equal := Rewrite(nullCheck.value.1, e.equalExpression);
              equal.Ok? && equal.value.0.Binary? && r.value.1 == equal.value.1
              && r.value.0 == (if nullCheck.value.0 != e.outerKeyNullCheck || equal.value.0 != e.equalExpression
                               then CorrelationPredicate(nullCheck.value.0, equal.value.0) else e)
    // a visited comparison that is no longer binary fails the cast
    ensures var nullCheck := Rewrite(ctx, e.outerKeyNullCheck);
            (nullCheck.Ok? && Rewrite(nullCheck.value.1, e.equalExpression).Ok?
             && !Rewrite(nullCheck.value.1, e.equalExpression).value.0.Binary?)
            ==> r.Err? && r.failure.InvalidCast?
    // it succeeds exactly when both visits do and the comparison stays binary
    ensures r.Ok? <==> var nullCheck := Rewrite(ctx, e.outerKeyNullCheck);
                       nullCheck.Ok? && Rewrite(nullCheck.value.1, e.equalExpression).Ok?
                       && Rewrite(nullCheck.value.1, e.equalExpression).value.0.Binary?
    decreases e, 1, 0
  {
    var nullCheck :- Rewrite(ctx, e.outerKeyNullCheck);
    var equal :- Rewrite(nullCheck.1, e.equalExpression);
    ExtendsTransitive(ctx.nodes, nullCheck.1.nodes, equal.1.nodes);
    if !equal.0.Binary? then Err(InvalidCast(CastToBinary))
    else if nullCheck.0 != e.outerKeyNullCheck || equal.0 != e.equalExpression
    then Ok((CorrelationPredicate(nullCheck.0, equal.0), equal.1))
    else Ok((e, equal.1))
  }

  /** An expansion has only its operand visited; its state and its
      return type are kept. */
  function RewriteExpansion(ctx: Ctx, e: Expr): (r: Result<(Expr, Ctx)>)
    requires WellFormed(ctx.nodes) && e.Expansion?
    ensures r.Ok? ==> Advances(ctx, r.value.1)
    ensures r.Ok? ==> r.value.0.Expansion? && r.value.0 == Expansion(r.value.0.operand, e.state, e.returnType)
    // only the operand is visited; the node is rebuilt only when it changed
    ensures Rewrite(ctx, e.operand).Err? ==> r.Err? && r.failure == Rewrite(ctx, e.operand).failure
    ensures Rewrite(ctx, e.operand).Ok? ==>
              var operand := Rewrite(ctx, e.operand).value;
              r == Ok((if operand.0 != e.operand then Expansion(operand.0, e.state, e.returnType) else e, operand.1))
    decreases e, 1, 0
  {
    var operand :- Rewrite(ctx, e.operand);
    Ok((if operand.0 != e.operand then Expansion(operand.0, e.state, e.returnType) else e, operand.1))
  }

  /** A null-conditional node has its caller and its access visited and is
      rebuilt only when one of them changed. */
  function RewriteNullConditional(ctx: Ctx, e: Expr): (r: Result<(Expr, Ctx)>)
    requires WellFormed(ctx.nodes) && e.NullConditional?
    ensures r.Ok? ==> Advances(ctx, r.value.1)
    ensures r.Ok? ==> r.value.0.NullConditional?
    // the caller, then the access, are visited; the node is rebuilt only when one changed
    ensures r.Ok? ==>
              var caller := Rewrite(ctx, e.caller);
              caller.Ok?
              && var access := Rewrite(caller.value.1, e.accessOperation);
              access.Ok?
              && r.value == (if caller.value.0 != e.caller || access.value.0 != e.accessOperation
                             then NullConditional(caller.value.0, access.value.0) else e,
                             access.value.1)
    ensures Rewrite(ctx, e.caller).Err? ==> r.Err?
    // it succeeds exactly when both visits do
    ensures r.Ok? <==> Rewrite(ctx, e.caller).Ok? && Rewrite(Rewrite(ctx, e.caller).value.1, e.accessOperation).Ok?
    decreases e, 1, 0
  {
    var caller :- Rewrite(ctx, e.caller);
    var access :- Rewrite(caller.1, e.accessOperation);
    ExtendsTransitive(ctx.nodes, caller.1.nodes, access.1.nodes);
    Ok((if caller.0 != e.caller || access.0 != e.accessOperation
        then NullConditional(caller.0, access.0) else e,
        access.1))
  }

  // ------------------------------------------------ properties of the rewrite

  /** Parameters and constants need no rewriting, so a list of them comes back
      as it is, with the context unchanged. */
  lemma {:induction false} RewriteAllKeepsLeaves(ctx: Ctx, cs: seq<Expr>, bound: Expr, strip: bool)
    requires WellFormed(ctx.nodes) && forall k :: 0 <= k < |cs| ==> cs[k] < bound
    requires forall k :: 0 <= k < |cs| ==> cs[k].Parameter? || cs[k].Constant?
    ensures RewriteAll(ctx, cs, bound, strip) == Ok((cs, ctx))
    decreases |cs|
  {
    if cs != [] {
      RewriteAllKeepsLeaves(ctx, cs[1..], bound, strip);
      assert [cs[0]] + cs[1..] == cs;
    }
  }

  /** A collection binding is rewritten into the materialising call over its
      correlated subquery, and the wrapper comes off again as a sequence of
      the dependent entity type. */
  lemma CollectionBindingUnwraps(ctx: Ctx, b: Expr)
    requires WellFormed(ctx.nodes) && IsCollectionBinding(ctx.nodes, b)
    ensures var sub := CreateCollectionNavigationExpression(ctx, b.navigationTreeNode, b.rootParameter, b.sourceMapping);
            var element := ctx.nodes[b.navigationTreeNode].navigation.value.foreignKey.declaringEntityType.ClrType();
            var x := Rewrite(ctx, b);
            x.Ok? && x.value.1 == sub.1 && RemoveMaterialize(x.value.0) == Ok(sub.0) && sub.0 != b
            && SequenceTypeOf(sub.0) == Ok(element)
  {
    assert Rewrite(ctx, b) == MaterializeBinding(ctx, b);
    SubqueryElementType(ctx, b.navigationTreeNode, b.rootParameter, b.sourceMapping);
  }

  /** The subquery of a collection navigation is a sequence of the dependent entity type. */
  lemma SubqueryElementType(ctx: Ctx, nodeId: NodeId, rootParameter: Param, sourceMapping: SourceMapping)
    requires WellFormed(ctx.nodes) && nodeId < |ctx.nodes| && ctx.nodes[nodeId].navigation.Some?
    ensures SequenceTypeOf(CreateCollectionNavigationExpression(ctx, nodeId, rootParameter, sourceMapping).0)
            == Ok(ctx.nodes[nodeId].navigation.value.foreignKey.declaringEntityType.ClrType())
  {
    var sub := CreateCollectionNavigationExpression(ctx, nodeId, rootParameter, sourceMapping);
    CallType(sub.0);
  }

  lemma CallType(e: Expr)
    requires e.Call?
    ensures TypeOf(e) == e.callType
  {
  }

  /** `Count` read from a source that the rewrite turns into a different
      sequence becomes `Queryable.Count` over the unwrapped source. */
  lemma CountOfRewrittenSource(ctx: Ctx, source: Expr, t: ClrType, newSource: Expr, element: ClrType)
    requires WellFormed(ctx.nodes) && Rewrite(ctx, source).Ok?
    requires RemoveMaterialize(Rewrite(ctx, source).value.0) == Ok(newSource) && newSource != source
    requires SequenceTypeOf(newSource) == Ok(element)
    ensures Rewrite(ctx, Member(source, "Count", t))
            == Ok((Call(QueryableCount, [element], None, [newSource], IntType), Rewrite(ctx, source).value.1))
  {
    assert Rewrite(ctx, Member(source, "Count", t)) == RewriteMember(ctx, Member(source, "Count", t));
  }

  /** `blog.Posts.Count` counts the correlated subquery of the collection
      navigation: the materialising wrapper the binding gets is taken off
      again before `Queryable.Count` is applied. */
  lemma CountOfCollectionNavigation(ctx: Ctx, b: Expr, t: ClrType)
    requires WellFormed(ctx.nodes) && IsCollectionBinding(ctx.nodes, b)
    ensures var sub := CreateCollectionNavigationExpression(ctx, b.navigationTreeNode, b.rootParameter, b.sourceMapping);
            var element := ctx.nodes[b.navigationTreeNode].navigation.value.foreignKey.declaringEntityType.ClrType();
            Rewrite(ctx, Member(b, "Count", t)) == Ok((Call(QueryableCount, [element], None, [sub.0], IntType), sub.1))
  {
    var sub := CreateCollectionNavigationExpression(ctx, b.navigationTreeNode, b.rootParameter, b.sourceMapping);
    var element := ctx.nodes[b.navigationTreeNode].navigation.value.foreignKey.declaringEntityType.ClrType();
    CollectionBindingUnwraps(ctx, b);
    CountOfRewrittenSource(ctx, b, t, sub.0, element);
  }
}
