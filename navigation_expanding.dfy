/** `NavigationExpandingVisitor`: the rules of the expanding visitor found in
    NavigationExpandingVisitor.cs — equality rewrites for collection
    navigations and for pending single-result subqueries compared with null,
    member pushdown through a pending cardinality-reducing operator, and the
    extension nodes it passes through.  The visitor's other overrides
    (method calls, constants) live in other parts of the partial class and
    are a collaborator here, as are the binder and `ProcessSelectCore`. */
module NavigationExpanding {
  import opened Outcomes
  import opened Clr
  import opened Expressions
  import opened NavigationTree
  import opened ExpressionExtensions
  import opened CollectionNavigationRewriting
  import opened NavigationExpansion
  import ExpansionReducing

  /** The visitor's model and the code it calls that is not part of this
      model: `NavigationPropertyBindingVisitor.Visit` (`bind`, over the current
      parameter and the source mappings), `ProcessSelectCore`, the visitor's
      own overrides for method calls and constants (`visitOther`), and the
      collaborators of the reducing visitor used for collection pushdown. */
  datatype Expander = Expander(
    model: Model,
    reducing: Collaborators,
    bind: (Ctx, Param, seq<SourceMapping>, Expr) -> (Expr, Ctx),
    processSelectCore: (Ctx, Expr, State, Expr, ClrType) -> (Expr, Ctx),
    visitOther: (Ctx, Expr) -> Result<(Expr, Ctx)>)

  /** The collaborators keep the node arena well formed. */
  ghost predicate ExpanderSound(x: Expander) {
    Sound(x.reducing)
    && (forall c: Ctx, p: Param, sms: seq<SourceMapping>, e: Expr ::
          WellFormed(c.nodes) ==> WellFormed(x.bind(c, p, sms, e).1.nodes))
    && (forall c: Ctx, o: Expr, s: State, sel: Expr, t: ClrType ::
          WellFormed(c.nodes) ==> WellFormed(x.processSelectCore(c, o, s, sel, t).1.nodes))
    && (forall c: Ctx, e: Expr ::
          WellFormed(c.nodes) && x.visitOther(c, e).Ok? ==> WellFormed(x.visitOther(c, e).value.1.nodes))
  }

  /** The type of `Expression.Constant(null)`. */
  const ObjectType: ClrType := ReferenceType("Object")

  // ------------------------------------------------ a measure for termination

  /** The number of nodes a visit may reach; a rewritten comparison over the
      parents of two member accesses is smaller than the comparison itself. */
  ghost function Size(e: Expr): nat
    decreases e, 1
  {
    match e
    case Member(s, _, _) => 1 + Size(s)
    case Binary(_, l, r) => 1 + Size(l) + Size(r)
    case CorrelationPredicate(a, b) => 1 + Size(a) + Size(b)
    case NullConditional(a, b) => 1 + Size(a) + Size(b)
    case _ => 1 + SizeAll(Children(e), e)
  }

  ghost function SizeAll(cs: seq<Expr>, bound: Expr): nat
    requires forall k :: 0 <= k < |cs| ==> cs[k] < bound
    decreases bound, 0, |cs|
  {
    if cs == [] then 0 else Size(cs[0]) + SizeAll(cs[1..], bound)
  }

  lemma {:induction false} SizeAllBounds(cs: seq<Expr>, bound: Expr, k: nat)
    requires forall j :: 0 <= j < |cs| ==> cs[j] < bound
    requires k < |cs|
    ensures Size(cs[k]) <= SizeAll(cs, bound)
    decreases |cs|
  {
    if k > 0 {
      SizeAllBounds(cs[1..], bound, k - 1);
    }
  }

  /** Every sub-expression of `e` that the default traversal visits is smaller than `e`. */
  lemma ChildrenSmaller(e: Expr)
    requires !e.Member? && !e.Binary? && !e.CorrelationPredicate? && !e.NullConditional?
    ensures forall k :: 0 <= k < |Children(e)| ==> Size(Children(e)[k]) < Size(e)
  {
    forall k | 0 <= k < |Children(e)| ensures Size(Children(e)[k]) < Size(e) {
      SizeAllBounds(Children(e), e, k);
    }
  }

  // ------------------------------------------------ VisitBinary (lines 257-420)

  /** A member access whose type is a sequence, on an entity type of the
      model that declares a navigation of that name: the navigation and the
      accessed entity (lines 274-296). */
  function CollectionComparand(model: Model, e: Expr): (r: Option<(Navigation, Expr)>)
    ensures r.Some? <==> e.Member? && TryGetSequenceType(TypeOf(e)).Some?
                         && FindEntityType(model, TypeOf(e.source)).Some?
                         && FindNavigation(model, FindEntityType(model, TypeOf(e.source)).value, e.member).Some?
    ensures r.Some? ==> r.value.1 == e.source
                        && r.value.0 == FindNavigation(model, FindEntityType(model, TypeOf(e.source)).value, e.member).value
  {
    if e.Member? && TryGetSequenceType(TypeOf(e)).Some? then
      match FindEntityType(model, TypeOf(e.source))
      case Some(parentEntityType) =>
        (match FindNavigation(model, parentEntityType, e.member)
         case Some(navigation) => Some((navigation, e.source))
         case None => None)
      case None => None
    else None
  }

  /** `CreateNullKeyExpression(type, keyCount)`. */
  function CreateNullKey(keyType: ClrType, keyCount: nat): (r: Expr)
    ensures r.Call? && r.callee == NullKey(keyCount) && r.arguments == [] && TypeOf(r) == keyType
  {
    Call(NullKey(keyCount), [], None, [], keyType)
  }

  /** The binding selected by an expansion with a pending cardinality-reducing
      operator (lines 337-345). */
  function PendingBinding(e: Expr): (r: Option<Expr>)
    ensures r.Some? <==> e.Expansion? && e.state.pendingCardinalityReducingOperator.Some? && e.state.pendingSelector.body.Binding?
    ensures r.Some? ==> r.value == e.state.pendingSelector.body
  {
    if e.Expansion? && e.state.pendingCardinalityReducingOperator.Some? && e.state.pendingSelector.body.Binding?
    then Some(e.state.pendingSelector.body)
    else None
  }

  /** The expansion selecting `key` instead of its binding; everything else
      in its state is kept (lines 360-375 and 392-407). */
  function Keyed(expansion: Expr, key: Expr): (r: Expr)
    requires expansion.Expansion?
    ensures r.Expansion? && r.operand == expansion.operand && TypeOf(r) == TypeOf(key)
    ensures r.state.pendingSelector == Selector(expansion.state.pendingSelector.parameter, key)
    ensures r.state.applyPendingSelector
    ensures r.state == expansion.state.(pendingSelector := r.state.pendingSelector, applyPendingSelector := true)
  {
    var st := expansion.state;
    Expansion(expansion.operand,
              State(st.currentParameter, st.sourceMappings, Selector(st.pendingSelector.parameter, key), true,
                    st.pendingOrderings, st.pendingIncludeChain, st.pendingCardinalityReducingOperator,
                    st.pendingTags, st.customRootMappings, st.materializeCollectionNavigation),
              TypeOf(key))
  }

  /** Lines 329-416, after both sides are visited: a pending single-result
      subquery compared with a null constant becomes its primary key, null
      checked, compared with a null key of the same type and key count.
      The operator is kept. */
  function CompareWithNullKeys(op: BinaryOp, newLeft: Expr, newRight: Expr, leftConstantNull: bool, rightConstantNull: bool): (r: Expr)
    ensures r.Binary? && r.op == op
    ensures PendingBinding(newLeft).Some? && rightConstantNull && !(PendingBinding(newRight).Some? && leftConstantNull) ==>
              var b := PendingBinding(newLeft).value;
              var key := CreateKeyAccess(b, b.entityType.primaryKey, true);
              r.left == Keyed(newLeft, key) && r.right == CreateNullKey(TypeOf(key), |b.entityType.primaryKey|)
    ensures PendingBinding(newRight).Some? && leftConstantNull ==>
              var b := PendingBinding(newRight).value;
              var key := CreateKeyAccess(b, b.entityType.primaryKey, true);
              r.left == CreateNullKey(TypeOf(key), |b.entityType.primaryKey|) && r.right == Keyed(newRight, key)
    ensures !(PendingBinding(newLeft).Some? && rightConstantNull) && !(PendingBinding(newRight).Some? && leftConstantNull) ==>
              r.left == newLeft && r.right == newRight
  {
    var leftBinding := PendingBinding(newLeft);
    var rightBinding := PendingBinding(newRight);
    var (left1, right1) :=
      if leftBinding.Some? && rightConstantNull then
        var b := leftBinding.value;
        var outerKeyAccess := CreateKeyAccess(b, b.entityType.primaryKey, true);
        (Keyed(newLeft, outerKeyAccess), CreateNullKey(TypeOf(outerKeyAccess), |b.entityType.primaryKey|))
      else (newLeft, newRight);
    var (left2, right2) :=
      if rightBinding.Some? && leftConstantNull then
        var b := rightBinding.value;
        var innerKeyAccess := CreateKeyAccess(b, b.entityType.primaryKey, true);
        (CreateNullKey(TypeOf(innerKeyAccess), |b.entityType.primaryKey|), Keyed(newRight, innerKeyAccess))
      else (left1, right1);
    Binary(op, left2, right2)
  }

  predicate IsEquality(op: BinaryOp) {
    op == Equal || op == NotEqual
  }

  /** Which rewrite of lines 298-323 applies before the sides are visited. */
  function CollectionRewrite(model: Model, e: Expr): (r: Option<Expr>)
    requires e.Binary?
    ensures r.Some? ==> r.value.Binary? && r.value.op == e.op && IsEquality(e.op)
    ensures r.Some? ==> Size(r.value) < Size(e)
    ensures IsEquality(e.op) && CollectionComparand(model, e.left).Some? && CollectionComparand(model, e.left).value.0.isCollection
            && CollectionComparand(model, e.right).Some?
            && CollectionComparand(model, e.left).value.0 == CollectionComparand(model, e.right).value.0 ==>
              r == Some(Binary(e.op, e.left.source, e.right.source))
    ensures IsEquality(e.op) && CollectionComparand(model, e.left).Some? && CollectionComparand(model, e.left).value.0.isCollection
            && IsNullConstant(e.right) ==>
              r == Some(Binary(e.op, e.left.source, NullConstant(ObjectType)))
    ensures IsEquality(e.op) && CollectionComparand(model, e.right).Some? && CollectionComparand(model, e.right).value.0.isCollection
            && IsNullConstant(e.left) && !(CollectionComparand(model, e.left).Some? && CollectionComparand(model, e.left).value.0.isCollection) ==>
              r == Some(Binary(e.op, NullConstant(ObjectType), e.right.source))
    ensures !IsEquality(e.op) ==> r.None?
  {
    if !IsEquality(e.op) then None
    else
      var left := CollectionComparand(model, e.left);
      var right := CollectionComparand(model, e.right);
      if left.Some? && left.value.0.isCollection && right.Some? && left.value.0 == right.value.0 then
        Some(Binary(e.op, left.value.1, right.value.1))
      else if left.Some? && left.value.0.isCollection && IsNullConstant(e.right) then
        assert Size(e.right) == 1;
        Some(Binary(e.op, left.value.1, NullConstant(ObjectType)))
      else if right.Some? && right.value.0.isCollection && IsNullConstant(e.left) then
        assert Size(e.left) == 1;
        Some(Binary(e.op, NullConstant(ObjectType), right.value.1))
      else None
  }

  // ------------------------------------------------ the visitor

  /** `Visit`; `fuel` bounds the reducing visitor run during collection pushdown. */
  function Visit(x: Expander, ctx: Ctx, e: Expr, fuel: nat): (r: Result<(Expr, Ctx)>)
    requires ExpanderSound(x) && WellFormed(ctx.nodes)
    ensures r.Ok? ==> WellFormed(r.value.1.nodes)
    ensures e.Binary? && r.Ok? ==> r.value.0.Binary? && r.value.0.op == e.op
    ensures e.Binding? || e.CustomRoot? || e.ExpansionRoot? || e.Include? || e.Expansion? || e.Parameter? ==> r == Ok((e, ctx))
    ensures e.UnknownExtension? ==> r.Err? && r.failure.Argument?
    decreases Size(e), 2
  {
    match e
    case Binary(_, _, _) => VisitBinary(x, ctx, e, fuel)
    case Member(_, _, _) => VisitMember(x, ctx, e, fuel)
    case Call(_, _, _, _, _) => x.visitOther(ctx, e)
    case Constant(_, _) => x.visitOther(ctx, e)
    case Parameter(_) => Ok((e, ctx))
    case Binding(_, _, _, _, _) => Ok((e, ctx))
    case CustomRoot(_, _, _) => Ok((e, ctx))
    case ExpansionRoot(_, _, _) => Ok((e, ctx))
    case Include(_, _, _) => Ok((e, ctx))
    case Expansion(_, _, _) => Ok((e, ctx))
    case UnknownExtension(_, _) => Err(Argument(NotReducible))
    case _ => VisitParts(x, ctx, e, fuel)
  }

  /** `VisitBinary`: the collection comparisons are rewritten before the sides
      are visited and the rewrite is visited in turn; otherwise both sides
      are visited, and an equality or inequality then gets the null-key
      rewrite.  The operator never changes. */
  function VisitBinary(x: Expander, ctx: Ctx, e: Expr, fuel: nat): (r: Result<(Expr, Ctx)>)
    requires ExpanderSound(x) && WellFormed(ctx.nodes) && e.Binary?
    ensures r.Ok? ==> WellFormed(r.value.1.nodes) && r.value.0.Binary? && r.value.0.op == e.op
    ensures CollectionRewrite(x.model, e).Some? ==> r == Visit(x, ctx, CollectionRewrite(x.model, e).value, fuel)
    ensures CollectionRewrite(x.model, e).None? && IsEquality(e.op) ==>
              (r.Ok? <==> Visit(x, ctx, e.left, fuel).Ok? && Visit(x, Visit(x, ctx, e.left, fuel).value.1, e.right, fuel).Ok?)
              && (r.Ok? ==>
                    var newLeft := Visit(x, ctx, e.left, fuel).value;
                    var newRight := Visit(x, newLeft.1, e.right, fuel).value;
                    r.value == (CompareWithNullKeys(e.op, newLeft.0, newRight.0, IsNullConstant(e.left), IsNullConstant(e.right)),
                                newRight.1))
    decreases Size(e), 1
  {
    var rewritten := CollectionRewrite(x.model, e);
    if rewritten.Some? then Visit(x, ctx, rewritten.value, fuel)
    else
      var newLeft :- Visit(x, ctx, e.left, fuel);
      var newRight :- Visit(x, newLeft.1, e.right, fuel);
      if IsEquality(e.op) then
        Ok((CompareWithNullKeys(e.op, newLeft.0, newRight.0, IsNullConstant(e.left), IsNullConstant(e.right)), newRight.1))
      else if newLeft.0 != e.left || newRight.0 != e.right then Ok((Binary(e.op, newLeft.0, newRight.0), newRight.1))
      else Ok((e, newRight.1))
  }

  /** `VisitMember` (lines 227-237): the member is pushed into the visited
      object exactly when that is an expansion with a pending
      cardinality-reducing operator; otherwise `base.VisitMember` visits the
      object once more and the access is rebuilt only if it changed. */
  function VisitMember(x: Expander, ctx: Ctx, e: Expr, fuel: nat): (r: Result<(Expr, Ctx)>)
    requires ExpanderSound(x) && WellFormed(ctx.nodes) && e.Member?
    ensures r.Ok? ==> WellFormed(r.value.1.nodes)
    ensures r.Ok? ==> Visit(x, ctx, e.source, fuel).Ok?
    ensures Visit(x, ctx, e.source, fuel).Ok? && PushedDown(Visit(x, ctx, e.source, fuel).value.0) ==>
              var visited := Visit(x, ctx, e.source, fuel).value;
              r == ProcessMemberPushdown(x, visited.1, visited.0, false, e.member, "", e.memberType, fuel)
    ensures r.Ok? && !PushedDown(Visit(x, ctx, e.source, fuel).value.0) ==>
              r.value.0 == e || (r.value.0.Member? && r.value.0.member == e.member && r.value.0.memberType == e.memberType)
    decreases Size(e), 1
  {
    var newExpression :- Visit(x, ctx, e.source, fuel);
    if PushedDown(newExpression.0) then
      ProcessMemberPushdown(x, newExpression.1, newExpression.0, false, e.member, "", e.memberType, fuel)
    else
      var newSource :- Visit(x, newExpression.1, e.source, fuel);
      if newSource.0 != e.source then Ok((Member(newSource.0, e.member, e.memberType), newSource.1))
      else Ok((e, newSource.1))
  }

  /** Any other binary operator (lines 205-225, the fall-through to
      `base.VisitBinary`): the left side is visited, then the right side in
      the context the left visit leaves, and the node is rebuilt only when a
      side changed. */
  lemma VisitBinarySides(x: Expander, ctx: Ctx, e: Expr, fuel: nat)
    requires ExpanderSound(x) && WellFormed(ctx.nodes) && e.Binary?
    requires CollectionRewrite(x.model, e).None? && !IsEquality(e.op)
    ensures VisitBinary(x, ctx, e, fuel).Ok? <==>
              Visit(x, ctx, e.left, fuel).Ok? && Visit(x, Visit(x, ctx, e.left, fuel).value.1, e.right, fuel).Ok?
    ensures VisitBinary(x, ctx, e, fuel).Ok? ==>
              var left := Visit(x, ctx, e.left, fuel).value;
              var right := Visit(x, left.1, e.right, fuel).value;
              VisitBinary(x, ctx, e, fuel).value
              == (if left.0 != e.left || right.0 != e.right then Binary(e.op, left.0, right.0) else e, right.1)
  {
  }

  /** A member access whose visited object is not pushed into (line 236):
      `base.VisitMember` visits the original object a second time, in the
      context the first visit left, and the access is rebuilt over that
      second result only when it changed. */
  lemma VisitMemberRevisits(x: Expander, ctx: Ctx, e: Expr, fuel: nat)
    requires ExpanderSound(x) && WellFormed(ctx.nodes) && e.Member?
    requires Visit(x, ctx, e.source, fuel).Ok? && !PushedDown(Visit(x, ctx, e.source, fuel).value.0)
    ensures VisitMember(x, ctx, e, fuel).Ok? <==> Visit(x, Visit(x, ctx, e.source, fuel).value.1, e.source, fuel).Ok?
    ensures VisitMember(x, ctx, e, fuel).Ok? ==>
              var again := Visit(x, Visit(x, ctx, e.source, fuel).value.1, e.source, fuel).value;
              VisitMember(x, ctx, e, fuel).value
              == (if again.0 != e.source then Member(again.0, e.member, e.memberType) else e, again.1)
  {
  }

  /** The visited object a member access is pushed into. */
  predicate PushedDown(e: Expr) {
    e.Expansion? && e.state.pendingCardinalityReducingOperator.Some?
  }

  /** The default traversal of the remaining node kinds: the parts are
      visited in order and the node is rebuilt only if one changed. */
  function VisitParts(x: Expander, ctx: Ctx, e: Expr, fuel: nat): (r: Result<(Expr, Ctx)>)
    requires ExpanderSound(x) && WellFormed(ctx.nodes)
    requires !e.Member? && !e.Binary? && (e.CorrelationPredicate? || e.NullConditional? || !IsExtension(e))
    ensures r.Ok? ==> WellFormed(r.value.1.nodes)
    decreases Size(e), 1
  {
    if e.CorrelationPredicate? then
      var a :- Visit(x, ctx, e.outerKeyNullCheck, fuel);
      var b :- Visit(x, a.1, e.equalExpression, fuel);
      Ok((if a.0 != e.outerKeyNullCheck || b.0 != e.equalExpression then CorrelationPredicate(a.0, b.0) else e, b.1))
    else if e.NullConditional? then
      var a :- Visit(x, ctx, e.caller, fuel);
      var b :- Visit(x, a.1, e.accessOperation, fuel);
      Ok((if a.0 != e.caller || b.0 != e.accessOperation then NullConditional(a.0, b.0) else e, b.1))
    else
      ChildrenSmaller(e);
      var visited :- VisitAll(x, ctx, Children(e), e, fuel);
      Ok((if visited.0 != Children(e) then Rebuild(e, visited.0) else e, visited.1))
  }

  function VisitAll(x: Expander, ctx: Ctx, cs: seq<Expr>, bound: Expr, fuel: nat): (r: Result<(seq<Expr>, Ctx)>)
    requires ExpanderSound(x) && WellFormed(ctx.nodes)
    requires forall k :: 0 <= k < |cs| ==> Size(cs[k]) < Size(bound)
    ensures r.Ok? ==> WellFormed(r.value.1.nodes) && |r.value.0| == |cs|
    decreases Size(bound), 0, |cs|
  {
    if cs == [] then Ok(([], ctx))
    else
      var first :- Visit(x, ctx, cs[0], fuel);
      var rest :- VisitAll(x, first.1, cs[1..], bound, fuel);
      Ok(([first.0] + rest.0, rest.1))
  }

  // ------------------------------------------------ ProcessMemberPushdown (lines 54-225)

  /** Lines 71-84: after one of the eight `FirstOrDefault`/`SingleOrDefault`
      operators a selector body of a type that cannot hold null is converted
      to the nullable form of its type. */
  function WidenForOrDefault(body: Expr, cardinalityOperator: Method): (r: Expr)
    ensures IsOrDefaultOperator(cardinalityOperator) ==> IsNullableType(TypeOf(r))
    ensures !IsOrDefaultOperator(cardinalityOperator) || IsNullableType(TypeOf(body)) ==> r == body
    ensures r == body || r == Convert(body, MakeNullable(TypeOf(body)))
  {
    if IsOrDefaultOperator(cardinalityOperator) && !IsNullableType(TypeOf(body))
    then Convert(body, MakeNullable(TypeOf(body)))
    else body
  }

  /** Lines 62-84: a fresh parameter named after the current parameter, typed
      as the expansion, and the member (or `EF.Property`) read from it,
      widened after an `...OrDefault` operator. */
  function PushdownSelector(ctx: Ctx, expansion: Expr, efProperty: bool, member: string, propertyName: string, resultType: ClrType)
    : (r: (Param, Expr, Ctx))
    requires expansion.Expansion? && expansion.state.pendingCardinalityReducingOperator.Some?
    ensures r.0.name == expansion.state.currentParameter.name && r.0.paramType == TypeOf(expansion)
    ensures r.0.id == ctx.nextParameterId && r.2.nodes == ctx.nodes && r.2.nextParameterId > ctx.nextParameterId
    ensures var read := if efProperty
                        then Call(EFPropertyMethod, [resultType], None, [Parameter(r.0), Constant(Text(propertyName), StringType)], resultType)
                        else Member(Parameter(r.0), member, resultType);
            r.1 == WidenForOrDefault(read, expansion.state.pendingCardinalityReducingOperator.value)
  {
    var (selectorParameter, ctx1) := FreshParameter(ctx, expansion.state.currentParameter.name, TypeOf(expansion));
    var selectorBody :=
      if efProperty
      then Call(EFPropertyMethod, [resultType], None, [Parameter(selectorParameter), Constant(Text(propertyName), StringType)], resultType)
      else Member(Parameter(selectorParameter), member, resultType);
    (selectorParameter, WidenForOrDefault(selectorBody, expansion.state.pendingCardinalityReducingOperator.value), ctx1)
  }

  /** Lines 203-224: the expansion selecting the bound body, converted to the
      member's type when the selector's type differs from it. */
  function PushdownResult(expansion: Expr, bound: Expr, selectorType: ClrType, resultType: ClrType): (r: Expr)
    requires expansion.Expansion?
    ensures TypeOf(r) == resultType
    ensures var pushed := Expansion(expansion.operand,
                                    expansion.state.(pendingSelector := Selector(expansion.state.currentParameter, bound),
                                                     applyPendingSelector := true),
                                    selectorType);
            r == pushed || r == Convert(pushed, resultType)
    ensures selectorType == resultType ==> r.Expansion?
  {
    var st := expansion.state;
    var newState := State(st.currentParameter, st.sourceMappings, Selector(st.currentParameter, bound), true,
                          st.pendingOrderings, st.pendingIncludeChain, st.pendingCardinalityReducingOperator,
                          st.pendingTags, st.customRootMappings, st.materializeCollectionNavigation);
    var result := Expansion(expansion.operand, newState, selectorType);
    if resultType != TypeOf(result) then Convert(result, resultType) else result
  }

  /** `ProcessMemberPushdown`. */
  function ProcessMemberPushdown(x: Expander, ctx: Ctx, expansion: Expr, efProperty: bool, member: string,
                                 propertyName: string, resultType: ClrType, fuel: nat): (r: Result<(Expr, Ctx)>)
    requires ExpanderSound(x) && WellFormed(ctx.nodes)
    requires expansion.Expansion? && expansion.state.pendingCardinalityReducingOperator.Some?
    ensures r.Ok? ==> WellFormed(r.value.1.nodes)
    ensures var (selectorParameter, selectorBody, ctx1) := PushdownSelector(ctx, expansion, efProperty, member, propertyName, resultType);
            (r.Ok? ==> CombineAndRemap(selectorBody, selectorParameter, expansion.state.pendingSelector.body).Ok?)
            && (CombineAndRemap(selectorBody, selectorParameter, expansion.state.pendingSelector.body).Ok? ==>
                  var remapped := CombineAndRemap(selectorBody, selectorParameter, expansion.state.pendingSelector.body).value;
                  var (bound, ctx2) := x.bind(ctx1, expansion.state.currentParameter, expansion.state.sourceMappings, remapped);
                  (!LastNavigation(ctx2, bound).Some? ==>
                     r == Ok((PushdownResult(expansion, bound, TypeOf(selectorBody), resultType), ctx2)))
                  && (LastNavigation(ctx2, bound).Some? && !LastNavigation(ctx2, bound).value.isCollection ==>
                        r == Ok(x.processSelectCore(ctx2, expansion.operand, expansion.state,
                                                    Lambda(selectorBody, [selectorParameter]), TypeOf(selectorBody))))
                  && (LastNavigation(ctx2, bound).Some? && LastNavigation(ctx2, bound).value.isCollection ==>
                        r == CollectionPushdown(x, ctx2, expansion, LastNavigation(ctx2, bound).value, fuel)))
  {
    var (selectorParameter, selectorBody, ctx1) := PushdownSelector(ctx, expansion, efProperty, member, propertyName, resultType);
    var selector := Lambda(selectorBody, [selectorParameter]);
    var remappedSelectorBody :- CombineAndRemap(selectorBody, selectorParameter, expansion.state.pendingSelector.body);
    var (boundSelectorBody, ctx2) := x.bind(ctx1, expansion.state.currentParameter, expansion.state.sourceMappings, remappedSelectorBody);
    var lastNavigation := LastNavigation(ctx2, boundSelectorBody);
    if lastNavigation.Some? then
      if lastNavigation.value.isCollection then CollectionPushdown(x, ctx2, expansion, lastNavigation.value, fuel)
      else Ok(x.processSelectCore(ctx2, expansion.operand, expansion.state, selector, TypeOf(selectorBody)))
    else Ok((PushdownResult(expansion, boundSelectorBody, TypeOf(selectorBody), resultType), ctx2))
  }

  /** The navigation of the tree node a bound selector body ends at (lines 94-96). */
  function LastNavigation(ctx: Ctx, bound: Expr): (r: Option<Navigation>)
    ensures r.Some? ==> bound.Binding? && bound.navigationTreeNode < |ctx.nodes|
                        && ctx.nodes[bound.navigationTreeNode].navigation == r
    // a binding to a node inside the arena always yields that node's navigation
    ensures bound.Binding? && bound.navigationTreeNode < |ctx.nodes| ==>
              r == ctx.nodes[bound.navigationTreeNode].navigation
    ensures !bound.Binding? ==> r.None?
  {
    if bound.Binding? && bound.navigationTreeNode < |ctx.nodes| then ctx.nodes[bound.navigationTreeNode].navigation
    else None
  }

  /** Lines 98-190: a pushed-down collection navigation becomes a fresh
      expansion over the dependent entity set, filtered by its foreign key
      equal to the principal key the reduced expansion selects. */
  function CollectionPushdown(x: Expander, ctx: Ctx, expansion: Expr, navigation: Navigation, fuel: nat): (r: Result<(Expr, Ctx)>)
    requires Sound(x.reducing) && WellFormed(ctx.nodes) && expansion.Expansion?
    ensures r.Ok? ==> WellFormed(r.value.1.nodes)
    ensures r.Ok? <==> CorrelatedFilter(x, ctx, expansion, navigation, fuel).Ok?
    ensures r.Ok? ==>
              var filter := CorrelatedFilter(x, ctx, expansion, navigation, fuel).value;
              r.value == EntityRootExpansion(filter.1, filter.0, navigation.foreignKey.declaringEntityType)
  {
    var filter :- CorrelatedFilter(x, ctx, expansion, navigation, fuel);
    Ok(EntityRootExpansion(filter.1, filter.0, navigation.foreignKey.declaringEntityType))
  }

  /** Lines 98-146: `Where(<entity set>, outer => outer.<foreign key> ==
      <the expansion selecting its principal key, reduced>)`, the two keys
      aligned to a common type. */
  function CorrelatedFilter(x: Expander, ctx: Ctx, expansion: Expr, navigation: Navigation, fuel: nat): (r: Result<(Expr, Ctx)>)
    requires Sound(x.reducing) && WellFormed(ctx.nodes) && expansion.Expansion?
    ensures r.Ok? ==> WellFormed(r.value.1.nodes)
    ensures r.Ok? ==>
              var e := r.value.0;
              var elementType := navigation.foreignKey.declaringEntityType.ClrType();
              var outer := Param(ctx.nextParameterId, GenerateParameterName(elementType), elementType);
              var outerKey := CreateKeyAccess(Parameter(outer), navigation.foreignKey.properties, false);
              e.Call? && e.callee == QueryableWhere && e.typeArguments == [elementType]
              && TypeOf(e) == SequenceOf(IQueryable, elementType) && |e.arguments| == 2
              && e.arguments[0] == Constant(EntityQueryable(elementType), SequenceOf(IQueryable, elementType))
              && e.arguments[1].Lambda? && e.arguments[1].parameters == [outer]
              && e.arguments[1].body.Binary? && e.arguments[1].body.op == Equal
              && (e.arguments[1].body.left == outerKey || e.arguments[1].body.left.Convert?)
              && ExpansionReducing.Reduced(e.arguments[1].body.right)
    // lines 102-146 in full: the principal key read through a fresh inner
    // parameter is combined with the pending selector; a failure there is the
    // result, otherwise the key filter over the combined key is
    ensures var elementType := navigation.foreignKey.declaringEntityType.ClrType();
            var outer := Param(ctx.nextParameterId, GenerateParameterName(elementType), elementType);
            var inner := Param(ctx.nextParameterId + 1, "", TypeOf(expansion));
            var combined := CombineAndRemap(CreateKeyAccess(Parameter(inner), navigation.foreignKey.principalKey, false),
                                            inner, expansion.state.pendingSelector.body);
            (combined.Err? ==> r == Err(combined.failure))
            && (combined.Ok? ==>
                  r == KeyFilter(x, Ctx(ctx.nodes, ctx.nextParameterId + 2), expansion, outer,
                                 CreateKeyAccess(Parameter(outer), navigation.foreignKey.properties, false),
                                 combined.value, fuel))
  {
    var elementType := navigation.foreignKey.declaringEntityType.ClrType();
    // the outer and then the inner parameter are fresh
    var outerParameter := Param(ctx.nextParameterId, GenerateParameterName(elementType), elementType);
    var innerParameter := Param(ctx.nextParameterId + 1, "", TypeOf(expansion));
    var outerKeyAccess := CreateKeyAccess(Parameter(outerParameter), navigation.foreignKey.properties, false);
    var innerKeyAccess := CreateKeyAccess(Parameter(innerParameter), navigation.foreignKey.principalKey, false);
    var combined :- CombineAndRemap(innerKeyAccess, innerParameter, expansion.state.pendingSelector.body);
    KeyFilter(x, Ctx(ctx.nodes, ctx.nextParameterId + 2), expansion, outerParameter, outerKeyAccess, combined, fuel)
  }

  /** Lines 118-146: the combined key `innerKey` and the foreign key read from
      the outer parameter are aligned to a common type, the expansion
      selecting the aligned inner key is reduced, and the result is
      `Where(<entity set>, outer => <aligned outer key> == <reduced>)`; a
      failed reduction is the result. */
  function KeyFilter(x: Expander, ctx: Ctx, expansion: Expr, outer: Param, outerKey: Expr, innerKey: Expr, fuel: nat)
    : (r: Result<(Expr, Ctx)>)
    requires Sound(x.reducing) && WellFormed(ctx.nodes) && expansion.Expansion?
    ensures r.Ok? ==> WellFormed(r.value.1.nodes)
    ensures r.Ok? ==>
              var e := r.value.0;
              e.Call? && e.callee == QueryableWhere && e.typeArguments == [outer.paramType]
              && TypeOf(e) == SequenceOf(IQueryable, outer.paramType) && |e.arguments| == 2
              && e.arguments[0] == Constant(EntityQueryable(outer.paramType), SequenceOf(IQueryable, outer.paramType))
              && e.arguments[1].Lambda? && e.arguments[1].parameters == [outer]
              && e.arguments[1].body.Binary? && e.arguments[1].body.op == Equal
              && (e.arguments[1].body.left == outerKey || e.arguments[1].body.left.Convert?)
              && ExpansionReducing.Reduced(e.arguments[1].body.right)
    ensures var aligned := AlignKeys(innerKey, outerKey);
            var reduced := ExpansionReducing.Reduce(x.reducing, ctx, KeySelecting(expansion, aligned.0), fuel);
            (reduced.Err? ==> r == Err(reduced.failure))
            && (reduced.Ok? ==> r == Ok((WhereKeysEqual(outer, aligned.1, reduced.value.0), reduced.value.1)))
  {
    var aligned := AlignKeys(innerKey, outerKey);
    var reduced :- ExpansionReducing.Reduce(x.reducing, ctx, KeySelecting(expansion, aligned.0), fuel);
    Ok((WhereKeysEqual(outer, aligned.1, reduced.0), reduced.1))
  }

  /** `Where(<entity set of the parameter's type>, outer => outerKey == innerKey)`. */
  function WhereKeysEqual(outer: Param, outerKey: Expr, innerKey: Expr): (r: Expr)
    ensures r.Call? && r.callee == QueryableWhere && r.typeArguments == [outer.paramType]
    ensures TypeOf(r) == SequenceOf(IQueryable, outer.paramType)
    ensures r.arguments == [Constant(EntityQueryable(outer.paramType), SequenceOf(IQueryable, outer.paramType)),
                            Lambda(Binary(Equal, outerKey, innerKey), [outer])]
  {
    var queryableType := SequenceOf(IQueryable, outer.paramType);
    Call(QueryableWhere, [outer.paramType], None,
         [Constant(EntityQueryable(outer.paramType), queryableType), Lambda(Binary(Equal, outerKey, innerKey), [outer])],
         queryableType)
  }

  /** Lines 130-139: the expansion selecting `key` from its current
      parameter, with the collection materialisation dropped. */
  function KeySelecting(expansion: Expr, key: Expr): (r: Expr)
    requires expansion.Expansion?
    ensures r.Expansion? && r.operand == expansion.operand && TypeOf(r) == TypeOf(key)
    ensures r.state == expansion.state.(pendingSelector := Selector(expansion.state.currentParameter, key),
                                        applyPendingSelector := true, materializeCollectionNavigation := None)
  {
    var st := expansion.state;
    Expansion(expansion.operand,
              State(st.currentParameter, st.sourceMappings, Selector(st.currentParameter, key), true,
                    st.pendingOrderings, st.pendingIncludeChain, st.pendingCardinalityReducingOperator,
                    st.pendingTags, st.customRootMappings, None),
              TypeOf(key))
  }

  /** Lines 148-190: an expansion of `source` with nothing pending, selecting
      the binding of a new navigation-tree root for `entityType`. */
  function EntityRootExpansion(ctx: Ctx, source: Expr, entityType: EntityType): (r: (Expr, Ctx))
    requires WellFormed(ctx.nodes)
    ensures WellFormed(r.1.nodes) && r.1.nodes == ctx.nodes + [RootNode([], false)]
    ensures var e := r.0;
            e.Expansion? && e.operand == source && TypeOf(e) == TypeOf(source)
            && e.state.sourceMappings == [SourceMapping(entityType, Some(|ctx.nodes|))]
            && e.state.currentParameter == Param(ctx.nextParameterId, "", entityType.ClrType())
            && e.state.pendingSelector == Selector(e.state.currentParameter,
                 Binding(e.state.currentParameter, |ctx.nodes|, entityType, e.state.sourceMappings[0], entityType.ClrType()))
            && !e.state.applyPendingSelector && e.state.pendingOrderings == [] && e.state.pendingIncludeChain.None?
            && e.state.pendingCardinalityReducingOperator.None? && e.state.pendingTags == []
            && e.state.customRootMappings == [] && e.state.materializeCollectionNavigation.None?
  {
    var (nodes, root) := CreateRootSpec(ctx.nodes, SourceMapping(entityType, None), [], false);
    var sourceMapping := SourceMapping(entityType, Some(root));
    var (pendingSelectorParameter, ctx1) := FreshParameter(Ctx(nodes, ctx.nextParameterId), "", entityType.ClrType());
    var pendingSelector := Selector(pendingSelectorParameter,
      Binding(pendingSelectorParameter, root, entityType, sourceMapping, pendingSelectorParameter.paramType));
    var state := State(pendingSelectorParameter, [sourceMapping], pendingSelector, false, [], None, None, [], [], None);
    (Expansion(source, state, TypeOf(source)), ctx1)
  }

  // ------------------------------------------------ properties

  /** Two sides that are the same collection navigation are compared through
      their parents, with the same operator. */
  lemma SameCollectionComparedThroughParents(x: Expander, ctx: Ctx, e: Expr, fuel: nat)
    requires ExpanderSound(x) && WellFormed(ctx.nodes) && e.Binary? && IsEquality(e.op)
    requires CollectionComparand(x.model, e.left).Some? && CollectionComparand(x.model, e.left).value.0.isCollection
    requires CollectionComparand(x.model, e.right).Some?
    requires CollectionComparand(x.model, e.left).value.0 == CollectionComparand(x.model, e.right).value.0
    ensures Visit(x, ctx, e, fuel) == Visit(x, ctx, Binary(e.op, e.left.source, e.right.source), fuel)
  {
  }

  /** A collection navigation compared with a null constant, on either side,
      becomes its parent compared with null. */
  lemma CollectionComparedWithNull(x: Expander, ctx: Ctx, e: Expr, fuel: nat)
    requires ExpanderSound(x) && WellFormed(ctx.nodes) && e.Binary? && IsEquality(e.op)
    ensures CollectionComparand(x.model, e.left).Some? && CollectionComparand(x.model, e.left).value.0.isCollection
            && IsNullConstant(e.right) ==>
              Visit(x, ctx, e, fuel) == Visit(x, ctx, Binary(e.op, e.left.source, NullConstant(ObjectType)), fuel)
    ensures CollectionComparand(x.model, e.right).Some? && CollectionComparand(x.model, e.right).value.0.isCollection
            && IsNullConstant(e.left) ==>
              Visit(x, ctx, e, fuel) == Visit(x, ctx, Binary(e.op, NullConstant(ObjectType), e.right.source), fuel)
  {
    if CollectionComparand(x.model, e.right).Some? && IsNullConstant(e.left) {
      assert !e.left.Member?;
    }
  }

  /** A member pushed into an expansion whose pending operator is one of the
      `...OrDefault` operators reads a value that can be null. */
  lemma PushdownWidensAfterOrDefault(ctx: Ctx, expansion: Expr, member: string, resultType: ClrType)
    requires expansion.Expansion? && expansion.state.pendingCardinalityReducingOperator.Some?
    requires IsOrDefaultOperator(expansion.state.pendingCardinalityReducingOperator.value)
    ensures var (_, body, _) := PushdownSelector(ctx, expansion, false, member, "", resultType);
            IsNullableType(TypeOf(body))
            && (IsNullableType(resultType) ==> body.Member? && TypeOf(body) == resultType)
            && (!IsNullableType(resultType) ==> body.Convert? && TypeOf(body) == MakeNullable(resultType))
  {
  }
}
