/** Query expression trees: the standard LINQ node kinds the rewriters look at,
    the navigation-expansion extension nodes, and the expansion state that an
    expansion node carries.  A C# node is compared by reference; here a node
    is a value, so "the identical node" is a value equal to the input. */
module Expressions {
  import opened Outcomes
  import opened Clr

  /** Index of a navigation tree node in the arena of one query compilation. */
  type NodeId = nat

  /** A `ParameterExpression`; `id` gives it the identity its reference has. */
  datatype Param = Param(id: nat, name: string, paramType: ClrType)

  datatype ConstValue =
    | Null
    | Text(text: string)
    | NavigationConstant(navigation: Navigation)
    | EntityQueryable(elementType: ClrType)   // the root query over all entities of a type
    | OtherValue(tag: string)

  datatype BinaryOp = Equal | NotEqual | OtherOp(name: string, resultType: ClrType)

  /** `SourceMapping`: the root entity type of a query source and its navigation tree, if built. */
  datatype SourceMapping = SourceMapping(rootEntityType: EntityType, navigationTree: Option<NodeId>)

  datatype Expr =
    // standard node kinds
    | Parameter(param: Param)
    | Constant(value: ConstValue, constantType: ClrType)
    | Member(source: Expr, member: string, memberType: ClrType)
    | Call(callee: Method, typeArguments: seq<ClrType>, receiver: Option<Expr>, arguments: seq<Expr>, callType: ClrType)
    | Binary(op: BinaryOp, left: Expr, right: Expr)
    | Convert(operand: Expr, convertType: ClrType)
    | Quote(quoted: Expr)
    | Lambda(body: Expr, parameters: seq<Param>)
    | New(arguments: seq<Expr>, members: Option<seq<string>>, newType: ClrType)
    | Node(kind: string, children: seq<Expr>, nodeType: ClrType)     // any other standard node
    // extension node kinds
    | Binding(rootParameter: Param, navigationTreeNode: NodeId, entityType: EntityType,
              sourceMapping: SourceMapping, bindingType: ClrType)  // NavigationBindingExpression
    | CorrelationPredicate(outerKeyNullCheck: Expr, equalExpression: Expr)
    | Include(entityExpression: Expr, navigationExpression: Expr, navigation: Navigation)
    | Expansion(operand: Expr, state: State, returnType: ClrType)    // NavigationExpansionExpression
    | ExpansionRoot(navigationExpansion: Expr, mapping: seq<string>, rootType: ClrType)
    | CustomRoot(customRootParameter: Param, customMapping: seq<string>, customType: ClrType)
    | NullConditional(caller: Expr, accessOperation: Expr)
    | UnknownExtension(extensionName: string, extensionType: ClrType)

  /** A one-parameter lambda: the pending selector and ordering key selectors. */
  datatype Selector = Selector(parameter: Param, body: Expr)

  datatype Ordering = Ordering(orderingMethod: Method, keySelector: Selector)

  /** `NavigationExpansionExpressionState`: the deferred work of one query source. */
  datatype State = State(
    currentParameter: Param,
    sourceMappings: seq<SourceMapping>,
    pendingSelector: Selector,
    applyPendingSelector: bool,
    pendingOrderings: seq<Ordering>,
    pendingIncludeChain: Option<Expr>,
    pendingCardinalityReducingOperator: Option<Method>,
    pendingTags: seq<string>,
    customRootMappings: seq<seq<string>>,
    materializeCollectionNavigation: Option<Navigation>)

  function SelectorLambda(s: Selector): Expr {
    Lambda(s.body, [s.parameter])
  }

  predicate IsExtension(e: Expr) {
    e.Binding? || e.CorrelationPredicate? || e.Include? || e.Expansion? || e.ExpansionRoot?
    || e.CustomRoot? || e.NullConditional? || e.UnknownExtension?
  }

  /** `CanReduce` of the two extension kinds declared in this stage: a
      binding is a leaf that the framework must never reduce, while a
      navigation-expansion node reduces to its operator tree. */
  function CanReduce(e: Expr): (r: bool)
    requires e.Binding? || e.Expansion?
    ensures IsExtension(e)
    ensures r <==> !e.Binding?
  {
    match e
    case Binding(_, _, _, _, _) => false
    case Expansion(_, _, _) => true
  }

  /** The parts whose C# declaration names a node kind hold a node of that
      kind: the equality of a correlation predicate is a binary node, an
      expansion root wraps an expansion, and a pending include chain is a
      binding. */
  predicate TypedParts(e: Expr) {
    (e.CorrelationPredicate? ==> e.equalExpression.Binary?)
    && (e.ExpansionRoot? ==> e.navigationExpansion.Expansion?)
    && (e.Expansion? ==> StateTypedParts(e.state))
  }

  predicate StateTypedParts(s: State) {
    s.pendingIncludeChain.Some? ==> s.pendingIncludeChain.value.Binding?
  }

  /** `IsNullConstantExpression`. */
  predicate IsNullConstant(e: Expr) {
    e.Constant? && e.value.Null?
  }

  function NullConstant(t: ClrType): Expr {
    Constant(Null, t)
  }

  /** `Expression.Type`. */
  function TypeOf(e: Expr): ClrType {
    match e
    case Parameter(p) => p.paramType
    case Constant(_, t) => t
    case Member(_, _, t) => t
    case Call(_, _, _, _, t) => t
    case Binary(op, _, _) => if op.OtherOp? then op.resultType else BoolType
    case Convert(_, t) => t
    case Quote(q) => TypeOf(q)
    case Lambda(b, ps) => DelegateType(ParamTypes(ps), TypeOf(b))
    case New(_, _, t) => t
    case Node(_, _, t) => t
    case Binding(_, _, _, _, t) => t
    case CorrelationPredicate(_, _) => BoolType
    case Include(entity, _, _) => TypeOf(entity)
    case Expansion(_, _, t) => t
    case ExpansionRoot(_, _, t) => t
    case CustomRoot(_, _, t) => t
    case NullConditional(_, access) => MakeNullable(TypeOf(access))
    case UnknownExtension(_, t) => t
  }

  function ParamTypes(ps: seq<Param>): (r: seq<ClrType>)
    ensures |r| == |ps|
  {
    if ps == [] then [] else [ps[0].paramType] + ParamTypes(ps[1..])
  }

  /** The element type of a sequence-typed expression, or the ArgumentException
      that `GetSequenceType` raises for anything else. */
  function SequenceTypeOf(e: Expr): Result<ClrType> {
    match TryGetSequenceType(TypeOf(e))
    case Some(t) => Ok(t)
    case None => Err(Argument(NotSequenceType))
  }

  /** `Expression.PropertyOrField(e, name)`; the member's type comes from reflection. */
  function PropertyAccess(e: Expr, name: string): (r: Expr)
    ensures r.Member? && r.source == e && r.member == name
  {
    Member(e, name, MemberType(TypeOf(e), name))
  }

  // ------------------------------------------------ default visiting order

  /** The sub-expressions that the default `ExpressionVisitor` visits, in
      order, for the standard node kinds.  Lambda parameters and the parts of
      extension nodes are handled by each visitor itself. */
  function Children(e: Expr): (cs: seq<Expr>)
    ensures forall c :: c in cs ==> c < e
    ensures forall k :: 0 <= k < |cs| ==> cs[k] < e
  {
    match e
    case Member(s, _, _) => [s]
    case Call(_, _, receiver, args, _) =>
      (match receiver case Some(x) => [x] case None => []) + args
    case Binary(_, l, r) => [l, r]
    case Convert(o, _) => [o]
    case Quote(q) => [q]
    case Lambda(b, _) => [b]
    case New(args, _, _) => args
    case Node(_, cs, _) => cs
    case _ => []
  }

  /** `p` occurs in `e`: as a parameter node, a lambda parameter, the root of
      a binding or custom root, or anywhere in the state of an expansion. */
  predicate Mentions(e: Expr, p: Param)
    decreases e
  {
    match e
    case Parameter(q) => q == p
    case Lambda(body, ps) => p in ps || Mentions(body, p)
    case Binding(root, _, _, _, _) => root == p
    case CustomRoot(root, _, _) => root == p
    case ExpansionRoot(x, _, _) => Mentions(x, p)
    case Expansion(operand, st, _) =>
      Mentions(operand, p)
      || st.currentParameter == p
      || st.pendingSelector.parameter == p
      || Mentions(st.pendingSelector.body, p)
      || (exists o :: o in st.pendingOrderings && (o.keySelector.parameter == p || Mentions(o.keySelector.body, p)))
      || (st.pendingIncludeChain.Some? && Mentions(st.pendingIncludeChain.value, p))
    case CorrelationPredicate(a, b) => Mentions(a, p) || Mentions(b, p)
    case NullConditional(a, b) => Mentions(a, p) || Mentions(b, p)
    case Include(a, b, _) => Mentions(a, p) || Mentions(b, p)
    case UnknownExtension(_, _) => false
    case _ => exists c :: c in Children(e) && Mentions(c, p)
  }

  /** The `Update` of a standard node: the same node over new sub-expressions. */
  function Rebuild(e: Expr, cs: seq<Expr>): (r: Expr)
    requires |cs| == |Children(e)|
    ensures Children(r) == cs
    ensures r.Member? == e.Member? && r.Call? == e.Call? && r.Binary? == e.Binary?
    ensures r.Lambda? == e.Lambda? && r.Parameter? == e.Parameter? && IsExtension(r) == IsExtension(e)
  {
    match e
    case Member(_, m, t) => Member(cs[0], m, t)
    case Call(m, ta, receiver, _, t) =>
      if receiver.Some? then Call(m, ta, Some(cs[0]), cs[1..], t) else Call(m, ta, None, cs, t)
    case Binary(op, _, _) => Binary(op, cs[0], cs[1])
    case Convert(_, t) => Convert(cs[0], t)
    case Quote(_) => Quote(cs[0])
    case Lambda(_, ps) => Lambda(cs[0], ps)
    case New(_, ms, t) => New(cs, ms, t)
    case Node(k, _, t) => Node(k, cs, t)
    case _ => e
  }

  lemma RebuildSame(e: Expr)
    ensures Rebuild(e, Children(e)) == e
  {
    match e
    case Call(m, ta, receiver, args, t) =>
      if receiver.Some? { assert Children(e)[1..] == args; }
    case _ =>
  }

  // ------------------------------------------------ property paths

  /** The fold `result = PropertyOrField(result, segment)` over a path. */
  function PropertyPath(e: Expr, path: seq<string>): (r: Expr)
    ensures path == [] ==> r == e
    ensures path != [] ==> r.Member? && r.member == path[|path| - 1]
    decreases |path|
  {
    if path == [] then e
    else PropertyAccess(PropertyPath(e, path[..|path| - 1]), path[|path| - 1])
  }

  /** Splits a chain of member accesses into the innermost source and the member names, outermost last. */
  function SplitPath(e: Expr): (r: (Expr, seq<string>))
    ensures !r.0.Member?
  {
    if e.Member? then
      var (root, path) := SplitPath(e.source);
      (root, path + [e.member])
    else (e, [])
  }

  /** One more property access adds its member name at the end of the split. */
  lemma SplitPropertyAccess(e: Expr, name: string)
    ensures SplitPath(PropertyAccess(e, name)) == (SplitPath(e).0, SplitPath(e).1 + [name])
  {
  }

  /** A property path over a non-member root can be read back: the root and
      exactly the segments, in order. */
  lemma {:induction false} SplitPropertyPath(root: Expr, path: seq<string>)
    requires !root.Member?
    ensures SplitPath(PropertyPath(root, path)) == (root, path)
    decreases |path|
  {
    if path != [] {
      var init, last := path[..|path| - 1], path[|path| - 1];
      SplitPropertyPath(root, init);
      SplitPropertyAccess(PropertyPath(root, init), last);
      assert init + [last] == path;
    }
  }
}
