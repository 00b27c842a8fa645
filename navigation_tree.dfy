/** `NavigationTreeNode`: one navigation step of a query source, with its
    expansion and include state.  The nodes of one query compilation live in
    an arena (`seq<TreeNode>`) and refer to each other by index; a child is
    always added after its parent, so every child index is larger than its
    parent's.  The functions below are the specification; the class
    `NavigationTree` updates an arena in place and is proved against them. */
module NavigationTree {
  import opened Outcomes
  import opened Clr
  import opened Expressions

  /** `NavigationTreeNodeExpansionMode`.  The code also names a member
      `Complete`, which this enum does not declare; it is modelled as
      `ReferenceComplete`. */
  datatype ExpansionMode = NotNeeded22 | ReferencePending | ReferenceComplete | Collection

  /** `NavigationTreeNodeIncludeMode`.  The code also names a member
      `Pending`, which this enum does not declare; it is modelled as
      `ReferencePending`. */
  datatype IncludeMode = NotNeeded33 | ReferencePending | ReferenceComplete | Collection

  datatype TreeNode = TreeNode(
    navigation: Option<Navigation>,     // None exactly for a root
    parent: Option<NodeId>,
    children: seq<NodeId>,
    optional: bool,
    expansionMode: ExpansionMode,
    included: IncludeMode,
    fromMappings: seq<seq<string>>,
    toMapping: seq<string>)

  /** The state of one query compilation: the node arena and the next fresh parameter id. */
  datatype Ctx = Ctx(nodes: seq<TreeNode>, nextParameterId: nat)

  function FreshParameter(ctx: Ctx, name: string, t: ClrType): (r: (Param, Ctx))
    ensures r.0.id == ctx.nextParameterId && r.0.name == name && r.0.paramType == t
    ensures r.1.nodes == ctx.nodes && r.1.nextParameterId > ctx.nextParameterId
  {
    (Param(ctx.nextParameterId, name, t), Ctx(ctx.nodes, ctx.nextParameterId + 1))
  }

  // ------------------------------------------------ shape of the arena

  predicate NodeOk(ns: seq<TreeNode>, i: nat)
    requires i < |ns|
  {
    var n := ns[i];
    (forall k :: 0 <= k < |n.children| ==> i < n.children[k] < |ns| && ns[n.children[k]].parent == Some(i))
    && (forall j, k :: 0 <= j < k < |n.children| ==>
          n.children[j] < |ns| && n.children[k] < |ns| ==>
          ns[n.children[j]].navigation != ns[n.children[k]].navigation)
    && (n.parent.Some? ==> n.parent.value < i && i in ns[n.parent.value].children)
    && (n.parent.None? <==> n.navigation.None?)
    && |n.fromMappings| > 0
  }

  /** Parent and child links agree, children follow their parent in the
      arena, the children of a node have pairwise different navigations
      (which makes the `SingleOrDefault` lookup in `Create` well defined), and
      every node has a from-path. */
  predicate WellFormed(ns: seq<TreeNode>) {
    forall i :: 0 <= i < |ns| ==> NodeOk(ns, i)
  }

  predicate InArena(ns: seq<TreeNode>, cs: seq<NodeId>) {
    forall k :: 0 <= k < |cs| ==> cs[k] < |ns|
  }

  /** Every index of `cs` lies in the arena, after `bound`. */
  predicate Above(ns: seq<TreeNode>, cs: seq<NodeId>, bound: nat) {
    forall k :: 0 <= k < |cs| ==> bound < cs[k] < |ns|
  }

  // ------------------------------------------------ construction

  function ExpansionModeFor(nav: Navigation): ExpansionMode {
    if nav.isCollection then ExpansionMode.Collection else ExpansionMode.ReferencePending
  }

  function IncludeModeFor(nav: Navigation): IncludeMode {
    if nav.isCollection then IncludeMode.Collection else IncludeMode.ReferencePending
  }

  /** The from-paths of a new child: each of the parent's, extended by the navigation name. */
  function ExtendPaths(paths: seq<seq<string>>, name: string): (r: seq<seq<string>>)
    ensures |r| == |paths|
    ensures forall i :: 0 <= i < |paths| ==> r[i] == paths[i] + [name]
    decreases |paths|
  {
    if paths == [] then []
    else ExtendPaths(paths[..|paths| - 1], name) + [paths[|paths| - 1] + [name]]
  }

  /** The private child constructor. */
  function ChildNode(nav: Navigation, parentId: NodeId, parentFromMappings: seq<seq<string>>,
                     optional: bool, forInclude: bool): (r: TreeNode)
    ensures forInclude ==> r.expansionMode == NotNeeded22 && r.included == IncludeModeFor(nav)
    ensures !forInclude ==> r.expansionMode == ExpansionModeFor(nav) && r.included == NotNeeded33
    ensures r.toMapping == [] && r.children == []
  {
    TreeNode(Some(nav), Some(parentId), [], optional,
             if forInclude then NotNeeded22 else ExpansionModeFor(nav),
             if forInclude then IncludeModeFor(nav) else NotNeeded33,
             ExtendPaths(parentFromMappings, nav.name), [])
  }

  /** The private root constructor. */
  function RootNode(fromMapping: seq<string>, optional: bool): (r: TreeNode)
    ensures r.navigation.None? && r.parent.None? && r.children == []
    ensures r.fromMappings == [fromMapping] && r.toMapping == fromMapping
    ensures r.expansionMode == ExpansionMode.ReferenceComplete && r.included == NotNeeded33
  {
    TreeNode(None, None, [], optional, ExpansionMode.ReferenceComplete, NotNeeded33, [fromMapping], fromMapping)
  }

  /** `CreateRoot`: the mapping's existing tree, or a new root appended to the arena. */
  function CreateRootSpec(ns: seq<TreeNode>, sm: SourceMapping, fromMapping: seq<string>, optional: bool): (r: (seq<TreeNode>, NodeId))
    requires WellFormed(ns)
    requires sm.navigationTree.Some? ==> sm.navigationTree.value < |ns|
    ensures WellFormed(r.0) && r.1 < |r.0|
    ensures sm.navigationTree.Some? ==> r == (ns, sm.navigationTree.value)
    ensures sm.navigationTree.None? ==> r.1 == |ns| && r.0 == ns + [RootNode(fromMapping, optional)]
  {
    if sm.navigationTree.Some? then (ns, sm.navigationTree.value)
    else
      var r := ns + [RootNode(fromMapping, optional)];
      assert forall i :: 0 <= i < |ns| ==> NodeOk(ns, i) ==> NodeOk(r, i) by {
        forall i | 0 <= i < |ns| && NodeOk(ns, i) ensures NodeOk(r, i) {
          assert r[i] == ns[i];
        }
      }
      (r, |ns|)
  }

  /** `Where(c => c.Navigation == navigation).SingleOrDefault()` over the children. */
  function FindChild(ns: seq<TreeNode>, cs: seq<NodeId>, nav: Navigation): (r: Option<NodeId>)
    requires InArena(ns, cs)
    ensures r.Some? ==> r.value in cs && ns[r.value].navigation == Some(nav)
    ensures r.None? ==> forall c :: c in cs ==> ns[c].navigation != Some(nav)
  {
    if cs == [] then None
    else if ns[cs[0]].navigation == Some(nav) then Some(cs[0])
    else FindChild(ns, cs[1..], nav)
  }

  /** Asked for again, an existing child has the slot of the requested use
      raised from "not needed"; nothing else changes. */
  function Upgrade(n: TreeNode, nav: Navigation, forInclude: bool): (r: TreeNode)
    ensures r == n.(expansionMode := r.expansionMode, included := r.included)
    ensures forInclude ==>
              r.expansionMode == n.expansionMode
              && r.included == (if n.included == NotNeeded33 then IncludeModeFor(nav) else n.included)
    ensures !forInclude ==>
              r.included == n.included
              && r.expansionMode == (if n.expansionMode == NotNeeded22 then ExpansionModeFor(nav) else n.expansionMode)
  {
    if forInclude && n.included == NotNeeded33 then n.(included := IncludeModeFor(nav))
    else if !forInclude && n.expansionMode == NotNeeded22 then n.(expansionMode := ExpansionModeFor(nav))
    else n
  }

  /** `Create`: the existing child for the navigation (upgraded), or a new
      child appended to the arena and to the parent's children. */
  function CreateSpec(ns: seq<TreeNode>, parentId: NodeId, nav: Navigation, forInclude: bool): (r: (seq<TreeNode>, NodeId))
    requires WellFormed(ns) && parentId < |ns|
    ensures WellFormed(r.0) && r.1 < |r.0| && parentId < r.1
    ensures r.0[r.1].navigation == Some(nav) && r.0[r.1].parent == Some(parentId)
    ensures r.1 in r.0[parentId].children
    ensures FindChild(ns, ns[parentId].children, nav).Some? ==>
      r.1 == FindChild(ns, ns[parentId].children, nav).value
      && |r.0| == |ns|
      && (forall i :: 0 <= i < |ns| && i != r.1 ==> r.0[i] == ns[i])
      && r.0[r.1] == Upgrade(ns[r.1], nav, forInclude)
    ensures FindChild(ns, ns[parentId].children, nav).None? ==>
      r.1 == |ns| && |r.0| == |ns| + 1
      && r.0[parentId].children == ns[parentId].children + [r.1]
      && (forall i :: 0 <= i < |ns| ==> r.0[i] == ns[i].(children := r.0[i].children))
      && (forall i :: 0 <= i < |ns| && i != parentId ==> r.0[i] == ns[i])
      && r.0[r.1].optional == (ns[parentId].optional || !nav.foreignKey.isRequired || !nav.isDependentToPrincipal)
      && r.0[r.1].fromMappings == ExtendPaths(ns[parentId].fromMappings, nav.name)
      && r.0[r.1] == ChildNode(nav, parentId, ns[parentId].fromMappings, r.0[r.1].optional, forInclude)
  {
    assert NodeOk(ns, parentId);
    match FindChild(ns, ns[parentId].children, nav)
    case Some(c) =>
      var r := ns[c := Upgrade(ns[c], nav, forInclude)];
      UpgradeKeepsWellFormed(ns, c, nav, forInclude);
      (r, c)
    case None =>
      var optional := ns[parentId].optional || !nav.foreignKey.isRequired || !nav.isDependentToPrincipal;
      var child := ChildNode(nav, parentId, ns[parentId].fromMappings, optional, forInclude);
      var r := ns[parentId := ns[parentId].(children := ns[parentId].children + [|ns|])] + [child];
      AppendChildKeepsWellFormed(ns, parentId, nav, child);
      (r, |ns|)
  }

  lemma UpgradeKeepsWellFormed(ns: seq<TreeNode>, c: NodeId, nav: Navigation, forInclude: bool)
    requires WellFormed(ns) && c < |ns| && ns[c].navigation == Some(nav)
    ensures WellFormed(ns[c := Upgrade(ns[c], nav, forInclude)])
  {
    var r := ns[c := Upgrade(ns[c], nav, forInclude)];
    forall i | 0 <= i < |r| ensures NodeOk(r, i) {
      assert NodeOk(ns, i);
      var n := r[i];
      forall k | 0 <= k < |n.children| ensures ns[n.children[k]].parent == r[n.children[k]].parent {}
      forall j, k | 0 <= j < k < |n.children| && n.children[j] < |r| && n.children[k] < |r|
        ensures r[n.children[j]].navigation == ns[n.children[j]].navigation
        ensures r[n.children[k]].navigation == ns[n.children[k]].navigation {}
      if n.parent.Some? {
        assert r[n.parent.value].children == ns[n.parent.value].children;
      }
    }
  }

  lemma AppendChildKeepsWellFormed(ns: seq<TreeNode>, p: NodeId, nav: Navigation, child: TreeNode)
    requires WellFormed(ns) && p < |ns|
    requires forall c :: c in ns[p].children ==> c < |ns| && ns[c].navigation != Some(nav)
    requires child.navigation == Some(nav) && child.parent == Some(p) && child.children == []
    requires |ns[p].fromMappings| > 0 ==> |child.fromMappings| > 0
    ensures WellFormed(ns[p := ns[p].(children := ns[p].children + [|ns|])] + [child])
  {
    var r := ns[p := ns[p].(children := ns[p].children + [|ns|])] + [child];
    assert NodeOk(ns, p);
    forall i | 0 <= i < |r| ensures NodeOk(r, i) {
      if i == |ns| {
        assert r[i] == child;
        assert r[p].children[|r[p].children| - 1] == i;
      } else {
        assert NodeOk(ns, i);
        var n := r[i];
        forall k | 0 <= k < |n.children|
          ensures i < n.children[k] < |r| && r[n.children[k]].parent == Some(i)
        {
          if i == p && k == |n.children| - 1 {
          } else {
            assert n.children[k] == ns[i].children[k];
          }
        }
        forall j, k | 0 <= j < k < |n.children| && n.children[j] < |r| && n.children[k] < |r|
          ensures r[n.children[j]].navigation != r[n.children[k]].navigation
        {
          if i == p && k == |n.children| - 1 {
            assert ns[p].children[j] in ns[p].children;
          } else {
            assert n.children[j] == ns[i].children[j] && n.children[k] == ns[i].children[k];
          }
        }
        if n.parent.Some? {
          assert ns[i].parent.value < i;
          assert i in ns[ns[i].parent.value].children;
          assert ns[ns[i].parent.value].children <= r[n.parent.value].children;
        }
      }
    }
  }

  /** Within a well-formed arena a navigation names at most one child of a node. */
  lemma FindChildUnique(ns: seq<TreeNode>, parentId: NodeId, c: NodeId, nav: Navigation)
    requires WellFormed(ns) && parentId < |ns|
    requires c < |ns| && ns[c].parent == Some(parentId) && ns[c].navigation == Some(nav)
    ensures InArena(ns, ns[parentId].children) && FindChild(ns, ns[parentId].children, nav) == Some(c)
  {
    assert NodeOk(ns, parentId) && NodeOk(ns, c);
    var cs := ns[parentId].children;
    var f := FindChild(ns, cs, nav);
    assert f.Some?;
    var j :| 0 <= j < |cs| && cs[j] == f.value;
    var k :| 0 <= k < |cs| && cs[k] == c;
    if j != k {
      assert false;
    }
  }

  /** Asking for the same child twice returns the same node and leaves the
      arena as the first request left it: no second child is added and no
      slot is raised again. */
  lemma CreateIdempotent(ns: seq<TreeNode>, parentId: NodeId, nav: Navigation, forInclude: bool)
    requires WellFormed(ns) && parentId < |ns|
    ensures var (ns1, c1) := CreateSpec(ns, parentId, nav, forInclude);
            CreateSpec(ns1, parentId, nav, forInclude) == (ns1, c1)
  {
    var (ns1, c1) := CreateSpec(ns, parentId, nav, forInclude);
    FindChildUnique(ns1, parentId, c1, nav);
    assert Upgrade(ns1[c1], nav, forInclude) == ns1[c1];
    assert ns1[c1 := ns1[c1]] == ns1;
  }

  // ------------------------------------------------ other updates

  /** `MakeOptional`. */
  function MakeOptionalSpec(ns: seq<TreeNode>, id: NodeId): (r: seq<TreeNode>)
    requires WellFormed(ns) && id < |ns|
    ensures WellFormed(r) && |r| == |ns| && r[id].optional
    ensures forall i :: 0 <= i < |ns| ==> r[i] == ns[i].(optional := r[i].optional)
  {
    var r := ns[id := ns[id].(optional := true)];
    assert forall i :: 0 <= i < |r| ==> NodeOk(r, i) by {
      forall i | 0 <= i < |r| ensures NodeOk(r, i) {
        assert NodeOk(ns, i);
        var n := r[i];
        assert forall k :: 0 <= k < |n.children| && n.children[k] < |r| ==>
          r[n.children[k]].parent == ns[n.children[k]].parent && r[n.children[k]].navigation == ns[n.children[k]].navigation;
        if n.parent.Some? { assert r[n.parent.value].children == ns[n.parent.value].children; }
      }
    }
    r
  }

  /** Assignment to the public `ExpansionMode` property. */
  function SetExpansionMode(ns: seq<TreeNode>, id: NodeId, m: ExpansionMode): (r: seq<TreeNode>)
    requires WellFormed(ns) && id < |ns|
    ensures WellFormed(r) && |r| == |ns| && r[id].expansionMode == m
    ensures forall i :: 0 <= i < |ns| ==> r[i] == ns[i].(expansionMode := r[i].expansionMode)
    ensures forall i :: 0 <= i < |ns| && i != id ==> r[i] == ns[i]
  {
    var r := ns[id := ns[id].(expansionMode := m)];
    assert forall i :: 0 <= i < |r| ==> NodeOk(r, i) by {
      forall i | 0 <= i < |r| ensures NodeOk(r, i) {
        assert NodeOk(ns, i);
        var n := r[i];
        assert forall k :: 0 <= k < |n.children| && n.children[k] < |r| ==>
          r[n.children[k]].parent == ns[n.children[k]].parent && r[n.children[k]].navigation == ns[n.children[k]].navigation;
        if n.parent.Some? { assert r[n.parent.value].children == ns[n.parent.value].children; }
      }
    }
    r
  }

  // ------------------------------------------------ pre-order and subtrees

  /** `Flatten`: the node, then the flattening of each child, in child order. */
  function Preorder(ns: seq<TreeNode>, id: NodeId): (r: seq<NodeId>)
    requires WellFormed(ns) && id < |ns|
    decreases |ns| - id, 1
  {
    assert NodeOk(ns, id);
    [id] + PreorderAll(ns, ns[id].children, id)
  }

  function PreorderAll(ns: seq<TreeNode>, cs: seq<NodeId>, bound: nat): (r: seq<NodeId>)
    requires WellFormed(ns) && Above(ns, cs, bound)
    decreases |ns| - bound, 0, |cs|
  {
    if cs == [] then []
    else PreorderAll(ns, cs[..|cs| - 1], bound) + Preorder(ns, cs[|cs| - 1])
  }

  /** `a` is `d` or lies on the chain of parents above `d`. */
  predicate AncestorOrSelf(ns: seq<TreeNode>, a: NodeId, d: NodeId)
    requires WellFormed(ns) && d < |ns|
    decreases d
  {
    d == a || (a < d && ns[d].parent.Some? && (assert NodeOk(ns, d); AncestorOrSelf(ns, a, ns[d].parent.value)))
  }

  /** The nodes of the subtree rooted at `id`. */
  function Subtree(ns: seq<TreeNode>, id: NodeId): set<NodeId>
    requires WellFormed(ns)
  {
    set d | 0 <= d < |ns| && AncestorOrSelf(ns, id, d)
  }

  lemma {:induction false} AncestorBelow(ns: seq<TreeNode>, a: NodeId, d: NodeId)
    requires WellFormed(ns) && d < |ns| && AncestorOrSelf(ns, a, d)
    ensures a <= d
  {
  }

  lemma {:induction false} AncestorThroughParent(ns: seq<TreeNode>, p: NodeId, c: NodeId, d: NodeId)
    requires WellFormed(ns) && c < |ns| && d < |ns| && ns[c].parent == Some(p)
    requires AncestorOrSelf(ns, c, d)
    ensures AncestorOrSelf(ns, p, d)
    decreases d
  {
    assert NodeOk(ns, c);
    if d != c {
      assert NodeOk(ns, d);
      AncestorThroughParent(ns, p, c, ns[d].parent.value);
    }
  }

  /** Two ancestors of one node are ordered by ancestry. */
  lemma {:induction false} AncestorsComparable(ns: seq<TreeNode>, a: NodeId, b: NodeId, d: NodeId)
    requires WellFormed(ns) && d < |ns| && AncestorOrSelf(ns, a, d) && AncestorOrSelf(ns, b, d)
    ensures a < |ns| && b < |ns|
    ensures AncestorOrSelf(ns, a, b) || AncestorOrSelf(ns, b, a)
    decreases d
  {
    AncestorBelow(ns, a, d);
    AncestorBelow(ns, b, d);
    if d != a && d != b {
      assert NodeOk(ns, d);
      AncestorsComparable(ns, a, b, ns[d].parent.value);
    }
  }

  /** A proper descendant of `id` lies in the subtree of one of its children. */
  lemma {:induction false} BelowSomeChild(ns: seq<TreeNode>, id: NodeId, d: NodeId) returns (c: NodeId)
    requires WellFormed(ns) && id < |ns| && d < |ns| && d != id && AncestorOrSelf(ns, id, d)
    ensures c in ns[id].children && c < |ns| && AncestorOrSelf(ns, c, d)
    decreases d
  {
    assert NodeOk(ns, d);
    var p := ns[d].parent.value;
    if p == id {
      c := d;
    } else {
      c := BelowSomeChild(ns, id, p);
      assert NodeOk(ns, id);
      AncestorBelow(ns, c, p);
    }
  }

  lemma {:induction false} PreorderAllContains(ns: seq<TreeNode>, cs: seq<NodeId>, bound: nat, c: NodeId, x: NodeId)
    requires WellFormed(ns) && Above(ns, cs, bound)
    requires c in cs && x in Preorder(ns, c)
    ensures x in PreorderAll(ns, cs, bound)
    decreases |cs|
  {
    if c != cs[|cs| - 1] {
      assert c in cs[..|cs| - 1];
      PreorderAllContains(ns, cs[..|cs| - 1], bound, c, x);
    }
  }

  lemma {:induction false} PreorderAllMember(ns: seq<TreeNode>, cs: seq<NodeId>, bound: nat, x: NodeId) returns (c: NodeId)
    requires WellFormed(ns) && Above(ns, cs, bound)
    requires x in PreorderAll(ns, cs, bound)
    ensures c in cs && x in Preorder(ns, c)
    decreases |cs|
  {
    if x in Preorder(ns, cs[|cs| - 1]) {
      c := cs[|cs| - 1];
    } else {
      c := PreorderAllMember(ns, cs[..|cs| - 1], bound, x);
    }
  }

  /** `Flatten` lists exactly the subtree of the node. */
  lemma {:induction false} PreorderMembers(ns: seq<TreeNode>, id: NodeId, x: NodeId)
    requires WellFormed(ns) && id < |ns|
    ensures x in Preorder(ns, id) <==> x < |ns| && AncestorOrSelf(ns, id, x)
    decreases |ns| - id
  {
    assert NodeOk(ns, id);
    if x in Preorder(ns, id) && x != id {
      var c := PreorderAllMember(ns, ns[id].children, id, x);
      PreorderMembers(ns, c, x);
      AncestorThroughParent(ns, id, c, x);
    }
    if x < |ns| && AncestorOrSelf(ns, id, x) && x != id {
      var c := BelowSomeChild(ns, id, x);
      PreorderMembers(ns, c, x);
      PreorderAllContains(ns, ns[id].children, id, c, x);
    }
  }

  predicate NoDuplicates<T(==)>(s: seq<T>) {
    forall i, j :: 0 <= i < j < |s| ==> s[i] != s[j]
  }

  lemma NoDuplicatesAppend<T>(a: seq<T>, b: seq<T>)
    requires NoDuplicates(a) && NoDuplicates(b) && forall x :: x in a ==> x !in b
    ensures NoDuplicates(a + b)
  {
    forall i, j | 0 <= i < j < |a + b| ensures (a + b)[i] != (a + b)[j] {
      if j >= |a| && i < |a| {
        assert (a + b)[i] in a && (a + b)[j] == b[j - |a|];
      }
    }
  }

  /** `Flatten` lists every node of the subtree once. */
  lemma {:induction false} PreorderNoDuplicates(ns: seq<TreeNode>, id: NodeId)
    requires WellFormed(ns) && id < |ns|
    ensures NoDuplicates(Preorder(ns, id))
    decreases |ns| - id, 1
  {
    assert NodeOk(ns, id);
    var cs := ns[id].children;
    PreorderAllNoDuplicates(ns, cs, id, id);
    forall x | x in PreorderAll(ns, cs, id) ensures x != id {
      var c := PreorderAllMember(ns, cs, id, x);
      PreorderMembers(ns, c, x);
      AncestorBelow(ns, c, x);
    }
    NoDuplicatesAppend([id], PreorderAll(ns, cs, id));
  }

  lemma {:induction false} PreorderAllNoDuplicates(ns: seq<TreeNode>, cs: seq<NodeId>, bound: nat, p: NodeId)
    requires WellFormed(ns) && p == bound && p < |ns|
    requires Above(ns, cs, bound) && forall k :: 0 <= k < |cs| ==> ns[cs[k]].parent == Some(p)
    requires NoDuplicates(cs)
    ensures NoDuplicates(PreorderAll(ns, cs, bound))
    decreases |ns| - bound, 0, |cs|
  {
    if cs != [] {
      var init := cs[..|cs| - 1];
      var last := cs[|cs| - 1];
      PreorderAllNoDuplicates(ns, init, bound, p);
      PreorderNoDuplicates(ns, last);
      forall x | x in PreorderAll(ns, init, bound) ensures x !in Preorder(ns, last) {
        var c := PreorderAllMember(ns, init, bound, x);
        PreorderMembers(ns, c, x);
        if x in Preorder(ns, last) {
          PreorderMembers(ns, last, x);
          AncestorsComparable(ns, c, last, x);
          assert false;
        }
      }
      NoDuplicatesAppend(PreorderAll(ns, init, bound), Preorder(ns, last));
    }
  }

  lemma SiblingsUnrelated(ns: seq<TreeNode>, p: NodeId, a: NodeId, b: NodeId)
    requires WellFormed(ns) && a < |ns| && b < |ns| && a != b
    requires ns[a].parent == Some(p) && ns[b].parent == Some(p)
    ensures !AncestorOrSelf(ns, a, b) && !AncestorOrSelf(ns, b, a)
  {
    assert NodeOk(ns, a) && NodeOk(ns, b);
    if AncestorOrSelf(ns, a, b) { AncestorBelow(ns, a, p); }
    if AncestorOrSelf(ns, b, a) { AncestorBelow(ns, b, p); }
  }

  function Elements(s: seq<NodeId>): set<NodeId> {
    set x | x in s
  }

  lemma DistinctCardinality(s: seq<NodeId>)
    requires NoDuplicates(s)
    ensures |Elements(s)| == |s|
  {
    if s != [] {
      var init := s[..|s| - 1];
      var last := s[|s| - 1];
      assert s == init + [last];
      DistinctCardinality(init);
      assert last !in Elements(init);
      assert Elements(s) == Elements(init) + {last};
    }
  }

  /** `Flatten` returns the node first, lists each descendant exactly once, and
      its length is the size of the subtree. */
  lemma FlattenIsSubtree(ns: seq<TreeNode>, id: NodeId)
    requires WellFormed(ns) && id < |ns|
    ensures Preorder(ns, id)[0] == id
    ensures NoDuplicates(Preorder(ns, id))
    ensures forall x :: x in Preorder(ns, id) <==> x in Subtree(ns, id)
    ensures |Preorder(ns, id)| == |Subtree(ns, id)|
  {
    var s := Preorder(ns, id);
    PreorderNoDuplicates(ns, id);
    forall x ensures x in s <==> x in Subtree(ns, id) {
      PreorderMembers(ns, id, x);
    }
    assert Elements(s) == Subtree(ns, id);
    DistinctCardinality(s);
  }

  // ------------------------------------------------ the arena in place

  /** The nodes of one query compilation, updated in place. */
  class NavigationForest {
    var nodes: seq<TreeNode>

    ghost predicate Valid()
      reads this
    {
      WellFormed(nodes)
    }

    constructor ()
      ensures Valid() && nodes == []
    {
      nodes := [];
    }

    /** `NavigationTreeNode.CreateRoot`. */
    method CreateRoot(sm: SourceMapping, fromMapping: seq<string>, optional: bool) returns (id: NodeId)
      requires Valid()
      requires sm.navigationTree.Some? ==> sm.navigationTree.value < |nodes|
      modifies this
      ensures Valid() && id < |nodes|
      ensures (nodes, id) == CreateRootSpec(old(nodes), sm, fromMapping, optional)
    {
      if sm.navigationTree.Some? {
        id := sm.navigationTree.value;
      } else {
        // the specification's well-formedness proof covers the appended root
        assert CreateRootSpec(nodes, sm, fromMapping, optional) == (nodes + [RootNode(fromMapping, optional)], |nodes|);
        id := |nodes|;
        nodes := nodes + [RootNode(fromMapping, optional)];
      }
    }

    /** The loop of the child constructor over the parent's from-paths. */
    static method ExtendFromMappings(parentFromMappings: seq<seq<string>>, name: string) returns (r: seq<seq<string>>)
      ensures r == ExtendPaths(parentFromMappings, name)
    {
      r := [];
      for k := 0 to |parentFromMappings|
        invariant r == ExtendPaths(parentFromMappings[..k], name)
      {
        assert parentFromMappings[..k + 1][..k] == parentFromMappings[..k];
        r := r + [parentFromMappings[k] + [name]];
      }
      assert parentFromMappings[..|parentFromMappings|] == parentFromMappings;
    }

    /** `NavigationTreeNode.Create`. */
    method Create(parentId: NodeId, nav: Navigation, forInclude: bool) returns (id: NodeId)
      requires Valid() && parentId < |nodes|
      modifies this
      ensures Valid() && id < |nodes|
      ensures (nodes, id) == CreateSpec(old(nodes), parentId, nav, forInclude)
    {
      assert NodeOk(nodes, parentId);
      var cs := nodes[parentId].children;
      var existing: Option<NodeId> := None;
      var k := 0;
      while k < |cs| && existing.None?
        invariant 0 <= k <= |cs|
        invariant existing.None? ==> FindChild(nodes, cs, nav) == FindChild(nodes, cs[k..], nav)
        invariant existing.Some? ==> FindChild(nodes, cs, nav) == existing
      {
        assert cs[k..][1..] == cs[k + 1..];
        if nodes[cs[k]].navigation == Some(nav) {
          existing := Some(cs[k]);
        }
        k := k + 1;
      }
      if existing.Some? {
        var c := existing.value;
        var child := nodes[c];
        if forInclude && child.included == NotNeeded33 {
          child := child.(included := IncludeModeFor(nav));
        } else if !forInclude && child.expansionMode == NotNeeded22 {
          child := child.(expansionMode := ExpansionModeFor(nav));
        }
        UpgradeKeepsWellFormed(nodes, c, nav, forInclude);
        nodes := nodes[c := child];
        id := c;
      } else {
        var optional := nodes[parentId].optional || !nav.foreignKey.isRequired || !nav.isDependentToPrincipal;
        var fromMappings := ExtendFromMappings(nodes[parentId].fromMappings, nav.name);
        var child := TreeNode(Some(nav), Some(parentId), [], optional,
                              if forInclude then NotNeeded22 else ExpansionModeFor(nav),
                              if forInclude then IncludeModeFor(nav) else NotNeeded33,
                              fromMappings, []);
        AppendChildKeepsWellFormed(nodes, parentId, nav, child);
        id := |nodes|;
        nodes := nodes[parentId := nodes[parentId].(children := nodes[parentId].children + [id])] + [child];
      }
    }

    /** `NavigationTreeNode.Flatten`. */
    method Flatten(id: NodeId) returns (r: seq<NodeId>)
      requires Valid() && id < |nodes|
      ensures r == Preorder(nodes, id)
      decreases |nodes| - id
    {
      assert NodeOk(nodes, id);
      var cs := nodes[id].children;
      r := [id];
      for k := 0 to |cs|
        invariant r == [id] + PreorderAll(nodes, cs[..k], id)
      {
        var sub := Flatten(cs[k]);
        assert cs[..k + 1][..k] == cs[..k];
        r := r + sub;
      }
      assert cs[..|cs|] == cs;
    }

    /** `NavigationTreeNode.MakeOptional`. */
    method MakeOptional(id: NodeId)
      requires Valid() && id < |nodes|
      modifies this
      ensures Valid() && nodes == MakeOptionalSpec(old(nodes), id)
    {
      nodes := MakeOptionalSpec(nodes, id);
    }

    /** `NavigationTreeNode.BuildExpression`: the root parameter followed by the to-path. */
    method BuildExpression(id: NodeId, root: Param) returns (e: Expr)
      requires id < |nodes|
      ensures e == PropertyPath(Parameter(root), nodes[id].toMapping)
      ensures SplitPath(e) == (Parameter(root), nodes[id].toMapping)
    {
      var path := nodes[id].toMapping;
      e := Parameter(root);
      for k := 0 to |path|
        invariant e == PropertyPath(Parameter(root), path[..k])
      {
        assert path[..k + 1][..k] == path[..k];
        e := PropertyAccess(e, path[k]);
      }
      assert path[..|path|] == path;
      SplitPropertyPath(Parameter(root), path);
    }
  }
}
