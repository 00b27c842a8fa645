/** `NavigationExpansionReducingVisitor`: the last pass of navigation
    expansion.  Bindings become member-access chains over their root
    parameter, includes become calls of the include helper, expansion nodes
    are reduced and their reduction is visited in turn, and every other node
    is visited part by part.  The node arena and the parameter counter are
    threaded through, because reducing an expansion may add joins. */
module ExpansionReducing {
  import opened Outcomes
  import opened Clr
  import opened Expressions
  import opened NavigationTree
  import opened CollectionNavigationRewriting
  import opened NavigationExpansion

  /** No navigation-expansion node is left: no binding, include, expansion,
      expansion root or unknown extension anywhere, and the equality of a
      correlation predicate is a binary node. */
  predicate Reduced(e: Expr)
    decreases e
  {
    match e
    case Binding(_, _, _, _, _) => false
    case Include(_, _, _) => false
    case Expansion(_, _, _) => false
    case ExpansionRoot(_, _, _) => false
    case UnknownExtension(_, _) => false
    case CorrelationPredicate(a, b) => b.Binary? && Reduced(a) && Reduced(b)
    case NullConditional(a, b) => Reduced(a) && Reduced(b)
    case CustomRoot(_, _, _) => true
    case _ => forall c :: c in Children(e) ==> Reduced(c)
  }

  /** The call that replaces an include node (lines 31-44): the include
      helper, instantiated at the entity's type, over the visited entity, the
      visited navigation expression and the navigation as a constant. */
  function IncludeCall(entityType: ClrType, entity: Expr, navigationExpression: Expr, navigation: Navigation): (r: Expr)
    ensures r.Call? && r.callee == IncludeHelperMethod && r.receiver.None? && |r.arguments| == 3
    ensures r.arguments[0] == entity && r.arguments[1] == navigationExpression
    ensures r.arguments[2] == Constant(NavigationConstant(navigation), NavigationMetadataType)
  {
    Call(IncludeHelperMethod, [entityType], None,
         [entity, navigationExpression, Constant(NavigationConstant(navigation), NavigationMetadataType)], entityType)
  }

  /** A member-access chain over a reduced root is reduced. */
  lemma {:induction false} PathReduced(root: Expr, path: seq<string>)
    requires Reduced(root)
    ensures Reduced(PropertyPath(root, path))
    decreases |path|
  {
    if path != [] {
      PathReduced(root, path[..|path| - 1]);
    }
  }

  /** `Visit`.  `fuel` bounds how many expansions may be reduced one inside
      the reduction of another. */
  function Reduce(h: Collaborators, ctx: Ctx, e: Expr, fuel: nat): (r: Result<(Expr, Ctx)>)
    requires Sound(h) && WellFormed(ctx.nodes)
    ensures r.Ok? ==> WellFormed(r.value.1.nodes) && Reduced(r.value.0)
    ensures e.Binding? && e.navigationTreeNode < |ctx.nodes| ==>
              r == Ok((PropertyPath(Parameter(e.rootParameter), ctx.nodes[e.navigationTreeNode].toMapping), ctx))
    ensures e.UnknownExtension? ==> r.Err? && r.failure.Argument?
    ensures e.Parameter? || e.Constant? || e.CustomRoot? ==> r == Ok((e, ctx))
    decreases fuel, e, 1
  {
    match e
    case CorrelationPredicate(_, _) => ReduceParts(h, ctx, e, fuel)
    case Binding(root, node, _, _, _) =>
      if node < |ctx.nodes| then
        PathReduced(Parameter(root), ctx.nodes[node].toMapping);
        Ok((PropertyPath(Parameter(root), ctx.nodes[node].toMapping), ctx))
      else Err(InvalidOperation(NodeOutsideArena))
    case Include(_, _, _) => ReduceInclude(h, ctx, e, fuel)
    case ExpansionRoot(expansion, _, _) => ReduceExtension(h, ctx, expansion, fuel)
    case Expansion(_, _, _) => ReduceExtension(h, ctx, e, fuel)
    case NullConditional(_, _) => ReduceExtension(h, ctx, e, fuel)
    case CustomRoot(_, _, _) => ReduceExtension(h, ctx, e, fuel)
    case UnknownExtension(_, _) => ReduceExtension(h, ctx, e, fuel)
    case _ => ReduceParts(h, ctx, e, fuel)
  }

  /** A correlation predicate (lines 12-20) or a standard node: the parts
      are visited in order and the node is rebuilt only if one changed; the
      visited equality of a correlation predicate must stay a binary node. */
  function ReduceParts(h: Collaborators, ctx: Ctx, e: Expr, fuel: nat): (r: Result<(Expr, Ctx)>)
    requires Sound(h) && WellFormed(ctx.nodes) && (e.CorrelationPredicate? || !IsExtension(e))
    ensures r.Ok? ==> WellFormed(r.value.1.nodes) && Reduced(r.value.0)
    ensures e.Parameter? || e.Constant? ==> r == Ok((e, ctx))
    ensures e.CorrelationPredicate? && r.Ok? ==>
              r.value.0.CorrelationPredicate? && r.value.0.equalExpression.Binary?
    decreases fuel, e, 0
  {
    if e.CorrelationPredicate? then
      var newNullCheck :- Reduce(h, ctx, e.outerKeyNullCheck, fuel);
      var newEqual :- Reduce(h, newNullCheck.1, e.equalExpression, fuel);
      if !newEqual.0.Binary? then Err(InvalidCast(CastToBinary))
      else if newNullCheck.0 != e.outerKeyNullCheck || newEqual.0 != e.equalExpression
      then Ok((CorrelationPredicate(newNullCheck.0, newEqual.0), newEqual.1))
      else Ok((e, newEqual.1))
    else
      var visited :- ReduceAll(h, ctx, Children(e), e, fuel);
      Ok((if visited.0 != Children(e) then Rebuild(e, visited.0) else e, visited.1))
  }

  /** An include (lines 31-44): the entity, then the navigation expression,
      inside a call of the include helper at the entity's original type. */
  function ReduceInclude(h: Collaborators, ctx: Ctx, e: Expr, fuel: nat): (r: Result<(Expr, Ctx)>)
    requires Sound(h) && WellFormed(ctx.nodes) && e.Include?
    ensures r.Ok? ==> WellFormed(r.value.1.nodes) && Reduced(r.value.0)
    ensures r.Ok? <==> Reduce(h, ctx, e.entityExpression, fuel).Ok?
                       && Reduce(h, Reduce(h, ctx, e.entityExpression, fuel).value.1, e.navigationExpression, fuel).Ok?
    ensures r.Ok? ==>
              var entity := Reduce(h, ctx, e.entityExpression, fuel).value;
              var navigationExpression := Reduce(h, entity.1, e.navigationExpression, fuel).value;
              r.value == (IncludeCall(TypeOf(e.entityExpression), entity.0, navigationExpression.0, e.navigation),
                          navigationExpression.1)
    decreases fuel, e, 0
  {
    var newEntity :- Reduce(h, ctx, e.entityExpression, fuel);
    var newNavigationExpression :- Reduce(h, newEntity.1, e.navigationExpression, fuel);
    Ok((IncludeCall(TypeOf(e.entityExpression), newEntity.0, newNavigationExpression.0, e.navigation), newNavigationExpression.1))
  }

  /** `ExpressionVisitor.VisitExtension`, which asks the node to visit its own
      children: an expansion is reduced and the reduction visited; a
      null-conditional node visits its caller and its access; a custom root
      is kept; any other node is not reducible. */
  function ReduceExtension(h: Collaborators, ctx: Ctx, e: Expr, fuel: nat): (r: Result<(Expr, Ctx)>)
    requires Sound(h) && WellFormed(ctx.nodes)
    ensures r.Ok? ==> WellFormed(r.value.1.nodes) && Reduced(r.value.0)
    ensures e.Expansion? ==>
              (r.Ok? <==> fuel > 0 && ReduceSpec(h, ctx, e.operand, e.state, e.returnType).Ok?
                          && Reduce(h, ReduceSpec(h, ctx, e.operand, e.state, e.returnType).value.1,
                                    ReduceSpec(h, ctx, e.operand, e.state, e.returnType).value.0, fuel - 1).Ok?)
    ensures e.Expansion? && r.Ok? ==>
              var reduced := ReduceSpec(h, ctx, e.operand, e.state, e.returnType).value;
              r == Reduce(h, reduced.1, reduced.0, fuel - 1)
    ensures !e.Expansion? && !e.NullConditional? && !e.CustomRoot? ==> r.Err? && r.failure.Argument?
    decreases fuel, e, 0
  {
    match e
    case Expansion(operand, state, returnType) =>
      if fuel == 0 then Err(InvalidOperation(NestedTooDeeply))
      else
        var reduced :- ReduceSpec(h, ctx, operand, state, returnType);
        Reduce(h, reduced.1, reduced.0, fuel - 1)
    case NullConditional(caller, access) =>
      var newCaller :- Reduce(h, ctx, caller, fuel);
      var newAccess :- Reduce(h, newCaller.1, access, fuel);
      if newCaller.0 != caller || newAccess.0 != access
      then Ok((NullConditional(newCaller.0, newAccess.0), newAccess.1))
      else Ok((e, newAccess.1))
    case CustomRoot(_, _, _) => Ok((e, ctx))
    case _ => Err(Argument(NotReducible))
  }

  function ReduceAll(h: Collaborators, ctx: Ctx, cs: seq<Expr>, bound: Expr, fuel: nat): (r: Result<(seq<Expr>, Ctx)>)
    requires Sound(h) && WellFormed(ctx.nodes) && forall k :: 0 <= k < |cs| ==> cs[k] < bound
    ensures r.Ok? ==> WellFormed(r.value.1.nodes) && |r.value.0| == |cs|
    ensures r.Ok? ==> forall x :: x in r.value.0 ==> Reduced(x)
    decreases fuel, bound, 0, |cs|
  {
    if cs == [] then Ok(([], ctx))
    else
      var first :- Reduce(h, ctx, cs[0], fuel);
      var rest :- ReduceAll(h, first.1, cs[1..], bound, fuel);
      Ok(([first.0] + rest.0, rest.1))
  }

  /** Which visit a node gets: a correlation predicate and every standard
      node are visited part by part, an include becomes the include-helper
      call, and a binding to a node outside the arena fails. */
  lemma ReduceDispatch(h: Collaborators, ctx: Ctx, e: Expr, fuel: nat)
    requires Sound(h) && WellFormed(ctx.nodes)
    ensures e.Binding? && e.navigationTreeNode >= |ctx.nodes| ==> Reduce(h, ctx, e, fuel) == Err(InvalidOperation(NodeOutsideArena))
    ensures e.CorrelationPredicate? || !IsExtension(e) ==> Reduce(h, ctx, e, fuel) == ReduceParts(h, ctx, e, fuel)
    ensures e.Include? ==> Reduce(h, ctx, e, fuel) == ReduceInclude(h, ctx, e, fuel)
  {
  }

  /** The extensions other than bindings, includes and correlation
      predicates go through `VisitExtension`; an expansion root through the
      expansion it wraps. */
  lemma ReduceExtensionDispatch(h: Collaborators, ctx: Ctx, e: Expr, fuel: nat)
    requires Sound(h) && WellFormed(ctx.nodes)
    ensures e.ExpansionRoot? ==> Reduce(h, ctx, e, fuel) == ReduceExtension(h, ctx, e.navigationExpansion, fuel)
    ensures e.Expansion? || e.NullConditional? || e.CustomRoot? || e.UnknownExtension? ==>
              Reduce(h, ctx, e, fuel) == ReduceExtension(h, ctx, e, fuel)
  {
  }

  /** A correlation predicate (lines 12-20): the null check is visited, then
      the equality in the context that visit leaves; the visited equality
      must still be binary; the node is rebuilt only when a part changed. */
  lemma ReduceCorrelationSteps(h: Collaborators, ctx: Ctx, e: Expr, fuel: nat)
    requires Sound(h) && WellFormed(ctx.nodes) && e.CorrelationPredicate?
    ensures ReduceParts(h, ctx, e, fuel).Ok? <==>
              Reduce(h, ctx, e.outerKeyNullCheck, fuel).Ok?
              && Reduce(h, Reduce(h, ctx, e.outerKeyNullCheck, fuel).value.1, e.equalExpression, fuel).Ok?
              && Reduce(h, Reduce(h, ctx, e.outerKeyNullCheck, fuel).value.1, e.equalExpression, fuel).value.0.Binary?
    ensures ReduceParts(h, ctx, e, fuel).Ok? ==>
              var nullCheck := Reduce(h, ctx, e.outerKeyNullCheck, fuel).value;
              var equal := Reduce(h, nullCheck.1, e.equalExpression, fuel).value;
              ReduceParts(h, ctx, e, fuel).value
              == (if nullCheck.0 != e.outerKeyNullCheck || equal.0 != e.equalExpression
                  then CorrelationPredicate(nullCheck.0, equal.0) else e, equal.1)
  {
  }

  /** A standard node is rebuilt over its visited children only when one
      of them changed; a failed child fails the node. */
  lemma ReduceStandardNode(h: Collaborators, ctx: Ctx, e: Expr, fuel: nat)
    requires Sound(h) && WellFormed(ctx.nodes) && !IsExtension(e)
    ensures ReduceAll(h, ctx, Children(e), e, fuel).Err? ==>
              ReduceParts(h, ctx, e, fuel) == Err(ReduceAll(h, ctx, Children(e), e, fuel).failure)
    ensures ReduceAll(h, ctx, Children(e), e, fuel).Ok? ==>
              ReduceParts(h, ctx, e, fuel)
              == Ok((if ReduceAll(h, ctx, Children(e), e, fuel).value.0 != Children(e)
                     then Rebuild(e, ReduceAll(h, ctx, Children(e), e, fuel).value.0) else e,
                     ReduceAll(h, ctx, Children(e), e, fuel).value.1))
  {
  }

  /** A null-conditional node visits its caller, then its access in the
      context that visit leaves, and is rebuilt only when one changed; an
      expansion with no fuel left fails, and a custom root is kept. */
  lemma ReduceExtensionSteps(h: Collaborators, ctx: Ctx, e: Expr, fuel: nat)
    requires Sound(h) && WellFormed(ctx.nodes)
    ensures e.Expansion? && fuel == 0 ==> ReduceExtension(h, ctx, e, fuel) == Err(InvalidOperation(NestedTooDeeply))
    ensures e.CustomRoot? ==> ReduceExtension(h, ctx, e, fuel) == Ok((e, ctx))
    ensures e.NullConditional? ==>
              (ReduceExtension(h, ctx, e, fuel).Ok? <==>
                 Reduce(h, ctx, e.caller, fuel).Ok?
                 && Reduce(h, Reduce(h, ctx, e.caller, fuel).value.1, e.accessOperation, fuel).Ok?)
    ensures e.NullConditional? && ReduceExtension(h, ctx, e, fuel).Ok? ==>
              var caller := Reduce(h, ctx, e.caller, fuel).value;
              var access := Reduce(h, caller.1, e.accessOperation, fuel).value;
              ReduceExtension(h, ctx, e, fuel).value
              == (if caller.0 != e.caller || access.0 != e.accessOperation then NullConditional(caller.0, access.0) else e, access.1)
  {
  }

  /** The parts of a standard node are visited in order, each in the
      context the previous visit leaves. */
  lemma ReduceAllSteps(h: Collaborators, ctx: Ctx, cs: seq<Expr>, bound: Expr, fuel: nat)
    requires Sound(h) && WellFormed(ctx.nodes) && forall k :: 0 <= k < |cs| ==> cs[k] < bound
    ensures cs == [] ==> ReduceAll(h, ctx, cs, bound, fuel) == Ok(([], ctx))
    ensures cs != [] ==>
              (ReduceAll(h, ctx, cs, bound, fuel).Ok? <==>
                 Reduce(h, ctx, cs[0], fuel).Ok? && ReduceAll(h, Reduce(h, ctx, cs[0], fuel).value.1, cs[1..], bound, fuel).Ok?)
    ensures cs != [] && ReduceAll(h, ctx, cs, bound, fuel).Ok? ==>
              ReduceAll(h, ctx, cs, bound, fuel).value.0[0] == Reduce(h, ctx, cs[0], fuel).value.0
              && ReduceAll(h, Reduce(h, ctx, cs[0], fuel).value.1, cs[1..], bound, fuel)
                 == Ok((ReduceAll(h, ctx, cs, bound, fuel).value.0[1..], ReduceAll(h, ctx, cs, bound, fuel).value.1))
  {
  }

  /** A binding reduces to a member-access chain that reads back as its root
      parameter and exactly the to-path of its node. */
  lemma BindingReadsBack(h: Collaborators, ctx: Ctx, e: Expr, fuel: nat)
    requires Sound(h) && WellFormed(ctx.nodes) && e.Binding? && e.navigationTreeNode < |ctx.nodes|
    ensures Reduce(h, ctx, e, fuel).Ok?
    ensures SplitPath(Reduce(h, ctx, e, fuel).value.0) == (Parameter(e.rootParameter), ctx.nodes[e.navigationTreeNode].toMapping)
  {
    SplitPropertyPath(Parameter(e.rootParameter), ctx.nodes[e.navigationTreeNode].toMapping);
  }

  /** A tree with nothing left to reduce comes back identical, with the arena
      untouched. */
  lemma {:induction false} ReducedUnchanged(h: Collaborators, ctx: Ctx, e: Expr, fuel: nat)
    requires Sound(h) && WellFormed(ctx.nodes) && Reduced(e)
    ensures Reduce(h, ctx, e, fuel) == Ok((e, ctx))
    decreases e, 1
  {
    match e
    case Binding(_, _, _, _, _) =>
    case Include(_, _, _) =>
    case Expansion(_, _, _) =>
    case ExpansionRoot(_, _, _) =>
    case UnknownExtension(_, _) =>
    case CorrelationPredicate(a, b) =>
      ReducedUnchanged(h, ctx, a, fuel);
      ReducedUnchanged(h, ctx, b, fuel);
    case NullConditional(a, b) =>
      ReducedUnchanged(h, ctx, a, fuel);
      ReducedUnchanged(h, ctx, b, fuel);
    case CustomRoot(_, _, _) =>
    case _ =>
      ReducedAllUnchanged(h, ctx, Children(e), e, fuel);
  }

  lemma {:induction false} ReducedAllUnchanged(h: Collaborators, ctx: Ctx, cs: seq<Expr>, bound: Expr, fuel: nat)
    requires Sound(h) && WellFormed(ctx.nodes) && forall k :: 0 <= k < |cs| ==> cs[k] < bound
    requires forall x :: x in cs ==> Reduced(x)
    ensures ReduceAll(h, ctx, cs, bound, fuel) == Ok((cs, ctx))
    decreases bound, 0, |cs|
  {
    if cs != [] {
      ReducedUnchanged(h, ctx, cs[0], fuel);
      ReducedAllUnchanged(h, ctx, cs[1..], bound, fuel);
      assert [cs[0]] + cs[1..] == cs;
    }
  }

  /** Reducing is idempotent: a second pass over the result changes neither
      the tree nor the arena. */
  lemma Idempotent(h: Collaborators, ctx: Ctx, e: Expr, fuel: nat, fuel': nat)
    requires Sound(h) && WellFormed(ctx.nodes) && Reduce(h, ctx, e, fuel).Ok?
    ensures var once := Reduce(h, ctx, e, fuel).value;
            Reduce(h, once.1, once.0, fuel') == Ok(once)
  {
    var once := Reduce(h, ctx, e, fuel).value;
    ReducedUnchanged(h, once.1, once.0, fuel');
  }

  /** A correlation predicate whose parts need no reduction is returned as
      the identical node. */
  lemma CorrelationPredicateKept(h: Collaborators, ctx: Ctx, e: Expr, fuel: nat)
    requires Sound(h) && WellFormed(ctx.nodes) && e.CorrelationPredicate?
    requires Reduced(e.outerKeyNullCheck) && Reduced(e.equalExpression) && e.equalExpression.Binary?
    ensures Reduce(h, ctx, e, fuel) == Ok((e, ctx))
  {
    ReducedUnchanged(h, ctx, e.outerKeyNullCheck, fuel);
    ReducedUnchanged(h, ctx, e.equalExpression, fuel);
  }

  /** An expansion root reduces exactly as the expansion it wraps. */
  lemma RootUnwrapped(h: Collaborators, ctx: Ctx, e: Expr, fuel: nat)
    requires Sound(h) && WellFormed(ctx.nodes) && e.ExpansionRoot? && e.navigationExpansion.Expansion?
    ensures Reduce(h, ctx, e, fuel) == Reduce(h, ctx, e.navigationExpansion, fuel)
  {
  }
}
