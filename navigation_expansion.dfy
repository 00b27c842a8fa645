/** `NavigationExpansionExpression`: a query operand together with the work
    its state still defers.  `Reduce` first joins in the pending reference
    includes (`ApplyIncludes`) and then turns the deferred work into LINQ
    calls in a fixed order: orderings, projection, tags, the
    cardinality-reducing operator, collection materialisation and the
    return-type adapter. */
module NavigationExpansion {
  import opened Outcomes
  import opened Clr
  import opened Expressions
  import opened NavigationTree
  import opened CollectionNavigationRewriting
  import opened IncludeApplying

  /** The helpers whose bodies are not part of this model. */
  datatype Collaborators = Collaborators(
    // NavigationExpansionHelpers.AddNavigationJoin(source, parameter, sourceMapping, node, state, [], include: true)
    addNavigationJoin: (Ctx, Expr, Param, SourceMapping, NodeId, State) -> (Expr, Param, Ctx),
    // new ExpressionReplacingVisitor(from, to).Visit(e)
    replace: (Expr, Expr, Expr) -> Expr,
    // new NavigationPropertyUnbindingVisitor(root).Visit(e)
    unbind: (Param, Expr) -> Expr)

  /** The join synthesiser leaves a well-formed arena well-formed. */
  ghost predicate Sound(h: Collaborators) {
    forall c: Ctx, s: Expr, p: Param, sm: SourceMapping, n: NodeId, st: State ::
      WellFormed(c.nodes) ==> WellFormed(h.addNavigationJoin(c, s, p, sm, n, st).2.nodes)
  }

  const NoIncludes := PendingIncludes(map[], [])

  // ------------------------------------------------ ApplyIncludes

  /** The finder and the rewriter both visit the pending selector's body; a
      body the rewriter changed replaces the selector's body and switches
      the selector on. */
  function RewritePendingSelector(ctx: Ctx, st: State): (r: Result<(State, PendingIncludes, Ctx)>)
    requires WellFormed(ctx.nodes)
    ensures r.Ok? <==> FindInExpr(ctx.nodes, st.pendingSelector.body, NoIncludes).Ok?
                       && RewriteIncludes(ctx, st.pendingSelector.body).Ok?
    ensures r.Ok? ==> Expands(ctx, r.value.2) && Consistent(r.value.1)
                      && r.value.1 == FindInExpr(ctx.nodes, st.pendingSelector.body, NoIncludes).value
    ensures r.Ok? ==> r.value.0.pendingSelector == Selector(st.pendingSelector.parameter, RewriteIncludes(ctx, st.pendingSelector.body).value.0)
    ensures r.Ok? && r.value.0.pendingSelector.body == st.pendingSelector.body ==> r.value.0 == st
    ensures r.Ok? && r.value.0.pendingSelector.body != st.pendingSelector.body ==>
              r.value.0 == st.(pendingSelector := r.value.0.pendingSelector, applyPendingSelector := true)
  {
    var found :- FindInExpr(ctx.nodes, st.pendingSelector.body, NoIncludes);
    var rewritten :- RewriteIncludes(ctx, st.pendingSelector.body);
    var body := rewritten.0;
    if st.pendingSelector.body != body
    then Ok((st.(pendingSelector := Selector(st.pendingSelector.parameter, body), applyPendingSelector := true), found, rewritten.1))
    else Ok((st, found, rewritten.1))
  }

  /** The `foreach` over the dictionary: each recorded node is joined to the
      source built so far, in the order the nodes were recorded. */
  function JoinFold(h: Collaborators, ctx: Ctx, source: Expr, parameter: Param, d: PendingIncludes,
                    order: seq<NodeId>, st: State): (r: (Expr, Param, Ctx))
    requires Sound(h) && WellFormed(ctx.nodes)
    requires forall k :: k in order ==> k in d.entries
    ensures WellFormed(r.2.nodes)
    decreases |order|
  {
    if order == [] then (source, parameter, ctx)
    else
      var next := h.addNavigationJoin(ctx, source, parameter, d.entries[order[0]], order[0], st);
      JoinFold(h, next.2, next.0, next.1, d, order[1..], st)
  }

  /** The fold ends with the join of the last recorded node. */
  lemma {:induction false} JoinFoldLast(h: Collaborators, ctx: Ctx, source: Expr, parameter: Param, d: PendingIncludes,
                                        order: seq<NodeId>, st: State)
    requires Sound(h) && WellFormed(ctx.nodes)
    requires forall k :: k in order ==> k in d.entries
    requires order != []
    ensures var prev := JoinFold(h, ctx, source, parameter, d, order[..|order| - 1], st);
            var last := order[|order| - 1];
            JoinFold(h, ctx, source, parameter, d, order, st)
            == h.addNavigationJoin(prev.2, prev.0, prev.1, d.entries[last], last, st)
    decreases |order|
  {
    var next := h.addNavigationJoin(ctx, source, parameter, d.entries[order[0]], order[0], st);
    if |order| > 1 {
      JoinFoldLast(h, next.2, next.0, next.1, d, order[1..], st);
      assert order[1..][..|order[1..]| - 1] == order[..|order| - 1][1..];
      assert order[1..][|order[1..]| - 1] == order[|order| - 1];
    }
  }

  /** Lines 143-180: with includes found, the operand becomes the joined
      source, the current parameter the last join's parameter (the selector
      is re-rooted on it when it changed) and the selector is switched on;
      without, the operand and the state stay as they are. */
  function AddJoins(h: Collaborators, ctx: Ctx, operand: Expr, st: State, d: PendingIncludes): (r: (Expr, State, Ctx))
    requires Sound(h) && WellFormed(ctx.nodes) && Consistent(d)
    ensures WellFormed(r.2.nodes)
    ensures |d.entries| == 0 ==> r == (operand, st, ctx)
    ensures |d.entries| > 0 ==>
              var joined := JoinFold(h, ctx, operand, st.currentParameter, d, d.order, st);
              r.0 == joined.0 && r.2 == joined.2
              && r.1 == st.(currentParameter := joined.1, pendingSelector := r.1.pendingSelector, applyPendingSelector := true)
    ensures |d.entries| > 0 && r.1.currentParameter == st.currentParameter ==> r.1.pendingSelector == st.pendingSelector
    ensures |d.entries| > 0 && r.1.currentParameter != st.currentParameter ==>
              r.1.pendingSelector
              == Selector(r.1.currentParameter, h.replace(Parameter(st.currentParameter), Parameter(r.1.currentParameter), st.pendingSelector.body))
  {
    if |d.entries| > 0 then
      var joined := JoinFold(h, ctx, operand, st.currentParameter, d, d.order, st);
      var pendingSelector :=
        if st.currentParameter != joined.1
        then Selector(joined.1, h.replace(Parameter(st.currentParameter), Parameter(joined.1), st.pendingSelector.body))
        else st.pendingSelector;
      (joined.0, st.(currentParameter := joined.1, pendingSelector := pendingSelector, applyPendingSelector := true), joined.2)
    else (operand, st, ctx)
  }

  /** `ApplyIncludes`: the operand and state `Reduce` continues from. */
  function ApplyIncludesSpec(h: Collaborators, ctx: Ctx, operand: Expr, st: State): (r: Result<(Expr, State, Ctx)>)
    requires Sound(h) && WellFormed(ctx.nodes)
    ensures r.Ok? <==> RewritePendingSelector(ctx, st).Ok?
    ensures r.Ok? ==> WellFormed(r.value.2.nodes)
    ensures r.Ok? ==> var rw := RewritePendingSelector(ctx, st).value;
                      r.value == AddJoins(h, rw.2, operand, rw.0, rw.1)
  {
    var rw :- RewritePendingSelector(ctx, st);
    Ok(AddJoins(h, rw.2, operand, rw.0, rw.1))
  }

  /** Whenever the rewriter changed the selector or an include was found,
      the selector is applied; with neither, operand and state come back
      unchanged. */
  lemma ApplyIncludesEffects(h: Collaborators, ctx: Ctx, operand: Expr, st: State)
    requires Sound(h) && WellFormed(ctx.nodes)
    requires FindInExpr(ctx.nodes, st.pendingSelector.body, NoIncludes).Ok?
    requires RewriteIncludes(ctx, st.pendingSelector.body).Ok?
    ensures var r := ApplyIncludesSpec(h, ctx, operand, st);
            var found := FindInExpr(ctx.nodes, st.pendingSelector.body, NoIncludes).value;
            var changed := RewriteIncludes(ctx, st.pendingSelector.body).value.0 != st.pendingSelector.body;
            r.Ok?
            && ((changed || |found.entries| > 0) ==> r.value.1.applyPendingSelector)
            && (!changed && |found.entries| == 0 ==> r.value.0 == operand && r.value.1 == st)
  {
    var rw := RewritePendingSelector(ctx, st).value;
    assert rw.1 == FindInExpr(ctx.nodes, st.pendingSelector.body, NoIncludes).value;
  }

  /** With includes found, the current parameter becomes the one that the
      join of the last recorded node returned. */
  lemma AddJoinsLastParameter(h: Collaborators, ctx: Ctx, operand: Expr, st: State, d: PendingIncludes)
    requires Sound(h) && WellFormed(ctx.nodes) && Consistent(d) && |d.entries| > 0
    ensures d.order != []
    ensures var prev := JoinFold(h, ctx, operand, st.currentParameter, d, d.order[..|d.order| - 1], st);
            var last := d.order[|d.order| - 1];
            AddJoins(h, ctx, operand, st, d).1.currentParameter
            == h.addNavigationJoin(prev.2, prev.0, prev.1, d.entries[last], last, st).1
  {
    var k :| k in d.entries;
    assert k in d.order;
    JoinFoldLast(h, ctx, operand, st.currentParameter, d, d.order, st);
  }

  // ------------------------------------------------ the chain Reduce builds

  /** One step of the chain: a call applied to the result so far (as its
      first argument), or a conversion of it. */
  datatype Layer =
    | CallLayer(callee: Method, typeArguments: seq<ClrType>, rest: seq<Expr>, callType: ClrType)
    | ConvertLayer(convertType: ClrType)

  function Wrap(e: Expr, l: Layer): (r: Expr)
    ensures Layers(r) == (Layers(e).0, Layers(e).1 + [l])
  {
    match l
    case CallLayer(m, ta, rest, t) =>
      var r := Call(m, ta, None, [e] + rest, t);
      assert r.arguments[0] == e && r.arguments[1..] == rest;
      r
    case ConvertLayer(t) => Convert(e, t)
  }

  /** Splits an expression into its innermost part and the layers around
      it, innermost first. */
  function Layers(e: Expr): (r: (Expr, seq<Layer>))
    decreases e
  {
    if e.Call? && e.receiver.None? && |e.arguments| > 0 then
      var inner := Layers(e.arguments[0]);
      (inner.0, inner.1 + [CallLayer(e.callee, e.typeArguments, e.arguments[1..], e.callType)])
    else if e.Convert? then
      var inner := Layers(e.operand);
      (inner.0, inner.1 + [ConvertLayer(e.convertType)])
    else (e, [])
  }

  /** The method of each layer, with `None` for a conversion. */
  function Steps(ls: seq<Layer>): (r: seq<Option<Method>>)
    ensures |r| == |ls|
    ensures forall k :: 0 <= k < |ls| ==> r[k] == (if ls[k].CallLayer? then Some(ls[k].callee) else None)
  {
    if ls == [] then [] else [if ls[0].CallLayer? then Some(ls[0].callee) else None] + Steps(ls[1..])
  }

  lemma StepsAppend(a: seq<Layer>, b: seq<Layer>)
    ensures Steps(a + b) == Steps(a) + Steps(b)
  {
  }

  // ------------------------------------------------ orderings

  /** The result type of `OrderBy`/`ThenBy` and their descending forms. */
  function OrderedSequenceType(m: Method, element: ClrType): ClrType {
    if m.Method? && m.declaringType == Enumerable then SequenceOf(IOrderedEnumerable, element)
    else SequenceOf(IOrderedQueryable, element)
  }

  /** One pending ordering: its key selector re-rooted on the current
      parameter and unbound, as the key lambda of the ordering call. */
  function OrderingLayer(h: Collaborators, current: Param, o: Ordering): (r: Layer)
    ensures r.CallLayer? && r.callee == o.orderingMethod && |r.rest| == 1 && r.rest[0].Lambda?
    ensures r.rest[0].parameters == [current]
    ensures r.rest[0].body == h.unbind(current, h.replace(Parameter(o.keySelector.parameter), Parameter(current), o.keySelector.body))
  {
    var remapped := h.replace(Parameter(o.keySelector.parameter), Parameter(current), o.keySelector.body);
    var body := h.unbind(current, remapped);
    CallLayer(o.orderingMethod, [current.paramType, TypeOf(body)], [Lambda(body, [current])],
              OrderedSequenceType(o.orderingMethod, current.paramType))
  }

  function OrderingLayers(h: Collaborators, current: Param, os: seq<Ordering>): (r: seq<Layer>)
    ensures |r| == |os|
    ensures forall k :: 0 <= k < |os| ==> r[k] == OrderingLayer(h, current, os[k])
  {
    if os == [] then [] else [OrderingLayer(h, current, os[0])] + OrderingLayers(h, current, os[1..])
  }

  /** The `foreach` over the pending orderings, as a left fold. */
  function ApplyOrderings(h: Collaborators, result: Expr, current: Param, os: seq<Ordering>): (r: Expr)
    decreases |os|
  {
    if os == [] then result
    else ApplyOrderings(h, Wrap(result, OrderingLayer(h, current, os[0])), current, os[1..])
  }

  /** One call per ordering, in list order. */
  lemma {:induction false} OrderingsInOrder(h: Collaborators, result: Expr, current: Param, os: seq<Ordering>)
    ensures ApplyOrderings(h, result, current, os) == WrapAll(result, OrderingLayers(h, current, os))
    decreases |os|
  {
    if os != [] {
      OrderingsInOrder(h, Wrap(result, OrderingLayer(h, current, os[0])), current, os[1..]);
      assert OrderingLayers(h, current, os)[1..] == OrderingLayers(h, current, os[1..]);
    }
  }

  // ------------------------------------------------ projection

  /** The current result is an `IEnumerable<>` or an `IOrderedEnumerable<>`. */
  predicate IsEnumerableSequence(t: ClrType) {
    IsGenericType(t) && (GenericDefinitionOf(t) == Some(IEnumerable) || GenericDefinitionOf(t) == Some(IOrderedEnumerable))
  }

  function SelectMethodFor(resultType: ClrType): (r: Method)
    ensures r == EnumerableSelect <==> IsEnumerableSequence(resultType)
    ensures r == QueryableSelect <==> !IsEnumerableSequence(resultType)
  {
    if IsEnumerableSequence(resultType) then EnumerableSelect else QueryableSelect
  }

  /** Lines 62-73: the unbound pending selector applied with `Select`, and
      the element type of the result; nothing to do when the selector is
      not applied.  The unbound selector must be a lambda, and its delegate
      type must have a second generic argument. */
  function SelectStep(h: Collaborators, result: Expr, element: ClrType, st: State): (r: Result<(Expr, ClrType)>)
    ensures !st.applyPendingSelector ==> r == Ok((result, element))
    ensures st.applyPendingSelector ==>
              var unbound := h.unbind(st.currentParameter, SelectorLambda(st.pendingSelector));
              (r.Ok? <==> unbound.Lambda? && |unbound.parameters| > 0)
              && (r.Ok? ==>
                    var c := r.value.0;
                    Layers(c) == (Layers(result).0,
                                  Layers(result).1 + [CallLayer(SelectMethodFor(TypeOf(result)), [element, r.value.1], [unbound], TypeOf(c))])
                    && TryGetSequenceType(TypeOf(c)) == Some(r.value.1)
                    && (|unbound.parameters| == 1 ==> r.value.1 == TypeOf(unbound.body)))
  {
    if !st.applyPendingSelector then Ok((result, element))
    else
      var selector := h.unbind(st.currentParameter, SelectorLambda(st.pendingSelector));
      if !selector.Lambda? then Err(InvalidCast(CastToLambda))
      else
        var arguments := GenericArguments(TypeOf(selector));
        if |arguments| < 2 then Err(IndexOutOfBounds(IndexOutsideBounds))
        else
          var bodyType := arguments[1];
          var m := SelectMethodFor(TypeOf(result));
          var t := if m == EnumerableSelect then SequenceOf(IEnumerable, bodyType) else SequenceOf(IQueryable, bodyType);
          Ok((Wrap(result, CallLayer(m, [element, bodyType], [selector], t)), bodyType))
  }

  // ------------------------------------------------ tags, cardinality, materialisation

  function TagLayer(element: ClrType, tag: string): Layer {
    CallLayer(TagWithMethod, [element], [Constant(Text(tag), StringType)], SequenceOf(IQueryable, element))
  }

  function TagLayers(element: ClrType, tags: seq<string>): (r: seq<Layer>)
    ensures |r| == |tags|
    ensures forall k :: 0 <= k < |tags| ==> r[k] == TagLayer(element, tags[k])
  {
    if tags == [] then [] else [TagLayer(element, tags[0])] + TagLayers(element, tags[1..])
  }

  /** The `foreach` over the pending tags: one `TagWith` per tag, in the
      order the tags were added. */
  function ApplyTags(result: Expr, element: ClrType, tags: seq<string>): (r: Expr)
    ensures Layers(r) == (Layers(result).0, Layers(result).1 + TagLayers(element, tags))
    ensures tags == [] ==> r == result
  {
    WrapAll(result, TagLayers(element, tags))
  }

  function CardinalityLayers(element: ClrType, operator: Option<Method>): seq<Layer> {
    match operator
    case Some(m) => [CallLayer(m, [element], [], element)]
    case None => []
  }

  /** The element type `MaterializeCollectionNavigation` is instantiated
      with: the first generic argument of the navigation's CLR type when that
      type is generic, else the CLR type of the navigation's target. */
  function MaterializedEntityType(nav: Navigation): (r: ClrType)
    ensures IsGenericType(nav.clrType) ==> r == GenericArguments(nav.clrType)[0]
    ensures !IsGenericType(nav.clrType) ==> r == nav.targetEntityType.ClrType()
  {
    if IsGenericType(nav.clrType) then GenericArguments(nav.clrType)[0] else nav.targetEntityType.ClrType()
  }

  /** For a collection type over the target entity, or a non-generic
      collection type, both branches name the target's CLR type. */
  lemma MaterializedEntityTypeIsTarget(nav: Navigation, d: GenericDefinition)
    requires nav.clrType == SequenceOf(d, nav.targetEntityType.ClrType()) || nav.clrType.ReferenceType?
    ensures MaterializedEntityType(nav) == nav.targetEntityType.ClrType()
  {
  }

  function MaterializeLayers(nav: Option<Navigation>): seq<Layer> {
    match nav
    case Some(n) =>
      [CallLayer(MaterializeCollectionNavigationMethod, [n.clrType, MaterializedEntityType(n)],
                 [Constant(NavigationConstant(n), NavigationMetadataType)], n.clrType)]
    case None => []
  }

  function WrapAll(e: Expr, ls: seq<Layer>): (r: Expr)
    ensures Layers(r) == (Layers(e).0, Layers(e).1 + ls)
    decreases |ls|
  {
    if ls == [] then
      assert Layers(e).1 + [] == Layers(e).1;
      e
    else
      var r := WrapAll(Wrap(e, ls[0]), ls[1..]);
      assert Layers(e).1 + [ls[0]] + ls[1..] == Layers(e).1 + ls;
      r
  }

  // ------------------------------------------------ the return-type adapter

  /** Lines 105-126: a result whose type is not the declared generic return
      type is adapted to `IOrderedQueryable<>` or `IOrderedEnumerable<>`
      through the adapters below, or converted to `IIncludableQueryable<,>`;
      anything else is returned as it is. */
  function AdapterLayers(returnType: ClrType, resultType: ClrType, element: ClrType): (r: seq<Layer>)
    ensures returnType == resultType || !IsGenericType(returnType) ==> r == []
    ensures |r| <= 1
    ensures r != [] ==> returnType != resultType && IsGenericType(returnType)
    ensures returnType != resultType && IsGenericType(returnType) ==>
              (GenericDefinitionOf(returnType) == Some(IOrderedQueryable) ==>
                 r == [CallLayer(ToOrderedQueryableMethod, [element], [], SequenceOf(IOrderedQueryable, element))])
              && (GenericDefinitionOf(returnType) == Some(IOrderedEnumerable) ==>
                    r == [CallLayer(ToOrderedEnumerableMethod, [element], [], SequenceOf(IOrderedEnumerable, element))])
              && (GenericDefinitionOf(returnType) == Some(IIncludableQueryable) ==> r == [ConvertLayer(returnType)])
    ensures (GenericDefinitionOf(returnType) != Some(IOrderedQueryable)
             && GenericDefinitionOf(returnType) != Some(IOrderedEnumerable)
             && GenericDefinitionOf(returnType) != Some(IIncludableQueryable)) ==> r == []
  {
    if returnType != resultType && IsGenericType(returnType) then
      if GenericDefinitionOf(returnType) == Some(IOrderedQueryable) then
        [CallLayer(ToOrderedQueryableMethod, [element], [], SequenceOf(IOrderedQueryable, element))]
      else if GenericDefinitionOf(returnType) == Some(IOrderedEnumerable) then
        [CallLayer(ToOrderedEnumerableMethod, [element], [], SequenceOf(IOrderedEnumerable, element))]
      else if GenericDefinitionOf(returnType) == Some(IIncludableQueryable) then
        [ConvertLayer(returnType)]
      else []
    else []
  }

  /** The adapted result has the declared return type whenever that type is
      an ordered sequence of the result's elements or an includable query. */
  lemma AdapterReachesReturnType(returnType: ClrType, result: Expr, element: ClrType)
    requires returnType == SequenceOf(IOrderedQueryable, element)
             || returnType == SequenceOf(IOrderedEnumerable, element)
             || (returnType.GenericType? && returnType.definition == IIncludableQueryable && returnType.arguments != [])
    ensures TypeOf(WrapAll(result, AdapterLayers(returnType, TypeOf(result), element))) == returnType
  {
    var ls := AdapterLayers(returnType, TypeOf(result), element);
    if ls != [] {
      assert WrapAll(result, ls) == Wrap(result, ls[0]);
    }
  }

  // ------------------------------------------------ Reduce

  /** The state defers nothing. */
  predicate NoPendingWork(st: State) {
    !st.applyPendingSelector && st.pendingOrderings == [] && st.pendingTags == []
    && st.pendingCardinalityReducingOperator.None? && st.materializeCollectionNavigation.None?
  }

  /** Lines 42-126: the deferred work of the state applied to the operand
      that the includes left.  With nothing deferred that operand is
      returned without any wrapper; otherwise its type must be a sequence. */
  function ApplyPendingWork(h: Collaborators, result: Expr, st: State, returnType: ClrType): (r: Result<Expr>)
    ensures NoPendingWork(st) ==> r == Ok(result)
    ensures !NoPendingWork(st) && SequenceTypeOf(result).Err? ==> r.Err?
  {
    if NoPendingWork(st) then Ok(result)
    else
      var element :- SequenceTypeOf(result);
      var ordered := ApplyOrderings(h, result, st.currentParameter, st.pendingOrderings);
      var selected :- SelectStep(h, ordered, element, st);
      var tagged := ApplyTags(selected.0, selected.1, st.pendingTags);
      Ok(FinalCalls(tagged, selected.1, st, returnType))
  }

  /** `ApplyPendingWork` unfolded into its steps, for the method that
      performs them one at a time. */
  lemma PendingWorkSteps(h: Collaborators, result: Expr, st: State, returnType: ClrType)
    requires !NoPendingWork(st) && SequenceTypeOf(result).Ok?
    ensures var ordered := ApplyOrderings(h, result, st.currentParameter, st.pendingOrderings);
            var selected := SelectStep(h, ordered, SequenceTypeOf(result).value, st);
            ApplyPendingWork(h, result, st, returnType)
            == if selected.Err? then Err(selected.failure)
               else Ok(FinalCalls(ApplyTags(selected.value.0, selected.value.1, st.pendingTags), selected.value.1, st, returnType))
  {
  }

  /** Lines 84-126: the cardinality-reducing operator, the materialisation
      and the adapter, around the tagged result. */
  function FinalCalls(tagged: Expr, element: ClrType, st: State, returnType: ClrType): Expr {
    var reduced := WrapAll(tagged, CardinalityLayers(element, st.pendingCardinalityReducingOperator));
    var materialized := WrapAll(reduced, MaterializeLayers(st.materializeCollectionNavigation));
    WrapAll(materialized, AdapterLayers(returnType, TypeOf(materialized), element))
  }

  /** `Reduce`: the reduced expression and the state the expansion keeps. */
  function ReduceSpec(h: Collaborators, ctx: Ctx, operand: Expr, st: State, returnType: ClrType): (r: Result<(Expr, Ctx)>)
    requires Sound(h) && WellFormed(ctx.nodes)
    ensures r.Ok? ==> ApplyIncludesSpec(h, ctx, operand, st).Ok? && WellFormed(r.value.1.nodes)
    ensures r.Ok? ==> var inc := ApplyIncludesSpec(h, ctx, operand, st).value;
                      ApplyPendingWork(h, inc.0, inc.1, returnType).Ok? && r.value == (ApplyPendingWork(h, inc.0, inc.1, returnType).value, inc.2)
  {
    var inc :- ApplyIncludesSpec(h, ctx, operand, st);
    var result :- ApplyPendingWork(h, inc.0, inc.1, returnType);
    Ok((result, inc.2))
  }

  /** The fixed order: around the operand the includes left come one call
      per ordering in list order, then the `Select` (the Enumerable one
      exactly when the ordered result is an enumerable), then one `TagWith`
      per tag in order, then the cardinality-reducing operator, then the
      materialisation, then the adapter. */
  lemma {:induction false} ReduceOrder(h: Collaborators, result: Expr, st: State, returnType: ClrType)
    requires ApplyPendingWork(h, result, st, returnType).Ok? && !NoPendingWork(st)
    ensures var r := ApplyPendingWork(h, result, st, returnType).value;
            var ordered := ApplyOrderings(h, result, st.currentParameter, st.pendingOrderings);
            var element := SequenceTypeOf(result).value;
            var selected := SelectStep(h, ordered, element, st).value;
            var beforeAdapter := WrapAll(ApplyTags(selected.0, selected.1, st.pendingTags),
                                         CardinalityLayers(selected.1, st.pendingCardinalityReducingOperator)
                                         + MaterializeLayers(st.materializeCollectionNavigation));
            Layers(r).0 == Layers(result).0
            && Steps(Layers(r).1)
               == Steps(Layers(result).1)
                  + Steps(OrderingLayers(h, st.currentParameter, st.pendingOrderings))
                  + (if st.applyPendingSelector then [Some(SelectMethodFor(TypeOf(ordered)))] else [])
                  + Steps(TagLayers(selected.1, st.pendingTags))
                  + (if st.pendingCardinalityReducingOperator.Some? then [st.pendingCardinalityReducingOperator] else [])
                  + (if st.materializeCollectionNavigation.Some? then [Some(MaterializeCollectionNavigationMethod)] else [])
                  + Steps(AdapterLayers(returnType, TypeOf(beforeAdapter), selected.1))
  {
    var element := SequenceTypeOf(result).value;
    var ordered := ApplyOrderings(h, result, st.currentParameter, st.pendingOrderings);
    var selected := SelectStep(h, ordered, element, st).value;
    var tagged := ApplyTags(selected.0, selected.1, st.pendingTags);
    var cl := CardinalityLayers(selected.1, st.pendingCardinalityReducingOperator);
    var ml := MaterializeLayers(st.materializeCollectionNavigation);
    var reduced := WrapAll(tagged, cl);
    var materialized := WrapAll(reduced, ml);
    assert WrapAll(tagged, cl + ml) == materialized by { WrapAllAppend(tagged, cl, ml); }
    var al := AdapterLayers(returnType, TypeOf(materialized), selected.1);
    var tl := TagLayers(selected.1, st.pendingTags);
    SelectedSteps(h, result, st, element);
    assert Steps(cl) == (if st.pendingCardinalityReducingOperator.Some? then [st.pendingCardinalityReducingOperator] else []);
    assert Steps(ml) == (if st.materializeCollectionNavigation.Some? then [Some(MaterializeCollectionNavigationMethod)] else []);
    PendingWorkSteps(h, result, st, returnType);
    assert ApplyPendingWork(h, result, st, returnType).value == WrapAll(materialized, al);
    assert Layers(ApplyPendingWork(h, result, st, returnType).value).1 == Layers(selected.0).1 + tl + cl + ml + al;
    StepsOfFive(Layers(selected.0).1, tl, cl, ml, al);
  }

  /** The steps up to the `Select`: the operand's own, one per ordering, then
      the `Select` when the selector is applied. */
  lemma SelectedSteps(h: Collaborators, result: Expr, st: State, element: ClrType)
    requires SelectStep(h, ApplyOrderings(h, result, st.currentParameter, st.pendingOrderings), element, st).Ok?
    ensures var ordered := ApplyOrderings(h, result, st.currentParameter, st.pendingOrderings);
            var selected := SelectStep(h, ordered, element, st).value;
            Layers(selected.0).0 == Layers(result).0
            && Steps(Layers(selected.0).1)
               == Steps(Layers(result).1)
                  + Steps(OrderingLayers(h, st.currentParameter, st.pendingOrderings))
                  + (if st.applyPendingSelector then [Some(SelectMethodFor(TypeOf(ordered)))] else [])
  {
    var ordered := ApplyOrderings(h, result, st.currentParameter, st.pendingOrderings);
    var selected := SelectStep(h, ordered, element, st).value;
    var ol := OrderingLayers(h, st.currentParameter, st.pendingOrderings);
    OrderingsInOrder(h, result, st.currentParameter, st.pendingOrderings);
    assert Layers(ordered) == (Layers(result).0, Layers(result).1 + ol);
    StepsAppend(Layers(result).1, ol);
    if st.applyPendingSelector {
      var unbound := h.unbind(st.currentParameter, SelectorLambda(st.pendingSelector));
      var sl := [CallLayer(SelectMethodFor(TypeOf(ordered)), [element, selected.1], [unbound], TypeOf(selected.0))];
      assert Layers(selected.0) == (Layers(ordered).0, Layers(ordered).1 + sl);
      StepsAppend(Layers(ordered).1, sl);
      assert Steps(sl) == [Some(SelectMethodFor(TypeOf(ordered)))];
    } else {
      assert selected.0 == ordered;
    }
  }

  lemma StepsOfFive(a: seq<Layer>, b: seq<Layer>, c: seq<Layer>, d: seq<Layer>, e: seq<Layer>)
    ensures Steps(a + b + c + d + e) == Steps(a) + Steps(b) + Steps(c) + Steps(d) + Steps(e)
  {
    StepsAppend(a + b + c + d, e);
    StepsAppend(a + b + c, d);
    StepsAppend(a + b, c);
    StepsAppend(a, b);
  }


  lemma {:induction false} WrapAllAppend(e: Expr, a: seq<Layer>, b: seq<Layer>)
    ensures WrapAll(e, a + b) == WrapAll(WrapAll(e, a), b)
    decreases |a|
  {
    if a == [] {
      assert a + b == b;
    } else {
      assert (a + b)[0] == a[0] && (a + b)[1..] == a[1..] + b;
      WrapAllAppend(Wrap(e, a[0]), a[1..], b);
    }
  }

  // ------------------------------------------------ the expression in place

  /** A `NavigationExpansionExpression`; `Reduce` overwrites its state. */
  class ExpansionExpression {
    const operand: Expr
    var state: State
    const returnType: ClrType

    constructor (operand: Expr, state: State, returnType: ClrType)
      ensures this.operand == operand && this.state == state && this.returnType == returnType
    {
      this.operand := operand;
      this.state := state;
      this.returnType := returnType;
    }

    /** `ApplyIncludes`: the selector is rewritten in place; the joins are
        threaded through the recorded nodes in order. */
    method ApplyIncludes(h: Collaborators, ctx: Ctx) returns (r: Result<(Expr, State, Ctx)>)
      requires Sound(h) && WellFormed(ctx.nodes)
      modifies this
      ensures r.Ok? <==> ApplyIncludesSpec(h, ctx, operand, old(state)).Ok?
      ensures r.Ok? ==> r.value == ApplyIncludesSpec(h, ctx, operand, old(state)).value
      ensures state == (if r.Ok? then RewritePendingSelector(ctx, old(state)).value.0 else old(state))
    {
      var finder := new PendingIncludeFinder();
      var visited := finder.Visit(ctx.nodes, state.pendingSelector.body);
      if visited.Err? {
        return Err(visited.failure);
      }
      var rewritten := RewriteIncludes(ctx, state.pendingSelector.body);
      if rewritten.Err? {
        return Err(rewritten.failure);
      }
      var rewrittenBody := rewritten.value.0;
      if state.pendingSelector.body != rewrittenBody {
        state := state.(pendingSelector := Selector(state.pendingSelector.parameter, rewrittenBody), applyPendingSelector := true);
      }
      var found := finder.Contents();
      assert Consistent(found);
      var joined := AddIncludeJoins(h, rewritten.value.1, operand, state, found);
      return Ok(joined);
    }

    /** `Reduce`: the includes are applied and their state kept, then the
        deferred work becomes calls around the operand, in the fixed order. */
    method Reduce(h: Collaborators, ctx: Ctx) returns (r: Result<(Expr, Ctx)>)
      requires Sound(h) && WellFormed(ctx.nodes)
      modifies this
      ensures r.Ok? <==> ReduceSpec(h, ctx, operand, old(state), returnType).Ok?
      ensures r.Ok? ==> r.value == ReduceSpec(h, ctx, operand, old(state), returnType).value
      ensures ApplyIncludesSpec(h, ctx, operand, old(state)).Ok? ==> state == ApplyIncludesSpec(h, ctx, operand, old(state)).value.1
      ensures ApplyIncludesSpec(h, ctx, operand, old(state)).Err? ==> state == old(state)
    {
      var includeResult := ApplyIncludes(h, ctx);
      if includeResult.Err? {
        return Err(includeResult.failure);
      }
      state := includeResult.value.1;
      var reduced := AddPendingWork(h, includeResult.value.0, state, returnType);
      if reduced.Err? {
        return Err(reduced.failure);
      }
      return Ok((reduced.value, includeResult.value.2));
    }
  }

  /** Lines 143-177 of `ApplyIncludes`: one `AddNavigationJoin` per found
      include, in the order found, then the selector remapped to the last
      join's parameter. */
  method AddIncludeJoins(h: Collaborators, ctx: Ctx, operand: Expr, st: State, found: PendingIncludes)
    returns (r: (Expr, State, Ctx))
    requires Sound(h) && WellFormed(ctx.nodes) && Consistent(found)
    ensures r == AddJoins(h, ctx, operand, st, found)
  {
    if |found.entries| == 0 {
      return (operand, st, ctx);
    }
    var source, parameter, c := operand, st.currentParameter, ctx;
    var order, entries := found.order, found.entries;
    for k := 0 to |order|
      invariant WellFormed(c.nodes)
      invariant JoinFold(h, c, source, parameter, found, order[k..], st)
                == JoinFold(h, ctx, operand, st.currentParameter, found, order, st)
    {
      assert order[k..][1..] == order[k + 1..];
      var next := h.addNavigationJoin(c, source, parameter, entries[order[k]], order[k], st);
      source, parameter, c := next.0, next.1, next.2;
    }
    assert order[|order|..] == [];
    var pendingSelector := st.pendingSelector;
    if st.currentParameter != parameter {
      var pendingSelectorBody := h.replace(Parameter(st.currentParameter), Parameter(parameter), st.pendingSelector.body);
      pendingSelector := Selector(parameter, pendingSelectorBody);
    }
    var newState := State(parameter, st.sourceMappings, pendingSelector, true, st.pendingOrderings,
                          st.pendingIncludeChain, st.pendingCardinalityReducingOperator,
                          st.pendingTags, st.customRootMappings, st.materializeCollectionNavigation);
    return (source, newState, c);
  }

  /** Lines 42-126 of `Reduce`, on the state the includes left. */
  method AddPendingWork(h: Collaborators, result: Expr, st: State, returnType: ClrType) returns (r: Result<Expr>)
    ensures r == ApplyPendingWork(h, result, st, returnType)
  {
    if NoPendingWork(st) {
      return Ok(result);
    }
    var sequenceType := SequenceTypeOf(result);
    if sequenceType.Err? {
      return Err(sequenceType.failure);
    }
    var ordered := AddOrderings(h, result, st.currentParameter, st.pendingOrderings);
    var selectResult := AddSelect(h, ordered, sequenceType.value, st);
    if selectResult.Err? {
      return Err(selectResult.failure);
    }
    var (selected, element) := selectResult.value;
    var tagged := AddTags(selected, element, st.pendingTags);
    var finished := AddFinalCalls(tagged, element, st, returnType);
    PendingWorkSteps(h, result, st, returnType);
    return Ok(finished);
  }

  /** Lines 62-73: the pending selector, unbound, becomes a `Select` call
      whose element type is the selector's body type. */
  method AddSelect(h: Collaborators, ordered: Expr, element: ClrType, st: State) returns (r: Result<(Expr, ClrType)>)
    ensures r == SelectStep(h, ordered, element, st)
  {
    if !st.applyPendingSelector {
      return Ok((ordered, element));
    }
    var pendingSelector := h.unbind(st.currentParameter, SelectorLambda(st.pendingSelector));
    if !pendingSelector.Lambda? {
      return Err(InvalidCast(CastToLambda));
    }
    var arguments := GenericArguments(TypeOf(pendingSelector));
    if |arguments| < 2 {
      return Err(IndexOutOfBounds(IndexOutsideBounds));
    }
    var pendingSelectorBodyType := arguments[1];
    var selectMethod := SelectMethodFor(TypeOf(ordered));
    var selectType := if selectMethod == EnumerableSelect then SequenceOf(IEnumerable, pendingSelectorBodyType)
                      else SequenceOf(IQueryable, pendingSelectorBodyType);
    assert [ordered] + [pendingSelector] == [ordered, pendingSelector];
    var selected := Call(selectMethod, [element, pendingSelectorBodyType], None, [ordered, pendingSelector], selectType);
    assert selected == Wrap(ordered, CallLayer(selectMethod, [element, pendingSelectorBodyType], [pendingSelector], selectType));
    return Ok((selected, pendingSelectorBodyType));
  }

  /** Lines 53-60: one ordering call per pending ordering, in list order. */
  method AddOrderings(h: Collaborators, result: Expr, current: Param, os: seq<Ordering>) returns (r: Expr)
    ensures r == ApplyOrderings(h, result, current, os)
  {
    r := result;
    for k := 0 to |os|
      invariant ApplyOrderings(h, r, current, os[k..]) == ApplyOrderings(h, result, current, os)
    {
      assert os[k..][0] == os[k] && os[k..][1..] == os[k + 1..];
      var remapped := h.replace(Parameter(os[k].keySelector.parameter), Parameter(current), os[k].keySelector.body);
      var newSelectorBody := h.unbind(current, remapped);
      var newSelector := Lambda(newSelectorBody, [current]);
      ghost var before := r;
      assert [r] + [newSelector] == [r, newSelector];
      r := Call(os[k].orderingMethod, [current.paramType, TypeOf(newSelectorBody)], None, [r, newSelector],
                OrderedSequenceType(os[k].orderingMethod, current.paramType));
      assert r == Wrap(before, OrderingLayer(h, current, os[k]));
    }
    assert os[|os|..] == [];
  }

  /** Lines 75-82: one `TagWith` call per pending tag, in list order. */
  method AddTags(result: Expr, element: ClrType, tags: seq<string>) returns (r: Expr)
    ensures r == ApplyTags(result, element, tags)
  {
    r := result;
    for k := 0 to |tags|
      invariant ApplyTags(r, element, tags[k..]) == ApplyTags(result, element, tags)
    {
      assert tags[k..][0] == tags[k] && tags[k..][1..] == tags[k + 1..];
      ghost var before := r;
      assert [r] + [Constant(Text(tags[k]), StringType)] == [r, Constant(Text(tags[k]), StringType)];
      r := Call(TagWithMethod, [element], None, [r, Constant(Text(tags[k]), StringType)], SequenceOf(IQueryable, element));
      assert r == Wrap(before, TagLayer(element, tags[k]));
      assert TagLayers(element, tags[k..]) == [TagLayer(element, tags[k])] + TagLayers(element, tags[k + 1..]);
      assert ApplyTags(before, element, tags[k..]) == ApplyTags(r, element, tags[k + 1..]);
    }
    assert tags[|tags|..] == [];
  }

  /** Lines 84-126: the cardinality-reducing operator, the materialisation
      and the adapter to the declared return type. */
  method AddFinalCalls(tagged: Expr, element: ClrType, st: State, returnType: ClrType) returns (r: Expr)
    ensures r == FinalCalls(tagged, element, st, returnType)
  {
    var result := tagged;
    if st.pendingCardinalityReducingOperator.Some? {
      result := Call(st.pendingCardinalityReducingOperator.value, [element], None, [result], element);
    }
    assert [tagged] + [] == [tagged];
    assert result == WrapAll(tagged, CardinalityLayers(element, st.pendingCardinalityReducingOperator));
    ghost var reduced := result;
    if st.materializeCollectionNavigation.Some? {
      var nav := st.materializeCollectionNavigation.value;
      var entityType := if IsGenericType(nav.clrType) then GenericArguments(nav.clrType)[0] else nav.targetEntityType.ClrType();
      result := Call(MaterializeCollectionNavigationMethod, [nav.clrType, entityType], None,
                     [result, Constant(NavigationConstant(nav), NavigationMetadataType)], nav.clrType);
    }
    assert result == WrapAll(reduced, MaterializeLayers(st.materializeCollectionNavigation));
    r := AddAdapter(result, element, returnType);
  }

  /** Lines 105-126: the adapter that gives the declared return type. */
  method AddAdapter(result: Expr, element: ClrType, returnType: ClrType) returns (r: Expr)
    ensures r == WrapAll(result, AdapterLayers(returnType, TypeOf(result), element))
  {
    r := result;
    if returnType != TypeOf(result) && IsGenericType(returnType) {
      if GenericDefinitionOf(returnType) == Some(IOrderedQueryable) {
        r := Call(ToOrderedQueryableMethod, [element], None, [result], SequenceOf(IOrderedQueryable, element));
      } else if GenericDefinitionOf(returnType) == Some(IOrderedEnumerable) {
        r := Call(ToOrderedEnumerableMethod, [element], None, [result], SequenceOf(IOrderedEnumerable, element));
      } else if GenericDefinitionOf(returnType) == Some(IIncludableQueryable) {
        r := Convert(result, returnType);
      }
    }
    assert [result] + [] == [result];
  }

  // ------------------------------------------------ Print

  function MethodName(m: Method): string {
    match m
    case Method(name, _, _) => name
    case KeyAccess(_, _) => "CreateKeyAccessExpression"
    case NullKey(_) => "CreateNullKeyExpression"
  }

  /** `Print`: the operand, then the pending selector when it is applied,
      then the pending cardinality-reducing operator; `printer` is
      `ExpressionPrinter.Visit`. */
  function Print(printer: Expr -> string, e: Expr): (r: string)
    requires e.Expansion?
    ensures printer(e.operand) <= r
    ensures !e.state.applyPendingSelector && e.state.pendingCardinalityReducingOperator.None? ==> r == printer(e.operand)
    ensures e.state.applyPendingSelector ==>
              var selectText := ".PendingSelect(" + printer(SelectorLambda(e.state.pendingSelector)) + ")";
              |printer(e.operand)| + |selectText| <= |r|
              && r[|printer(e.operand)|..|printer(e.operand)| + |selectText|] == selectText
    ensures e.state.pendingCardinalityReducingOperator.Some? ==>
              var operatorText := ".Pending" + MethodName(e.state.pendingCardinalityReducingOperator.value);
              |operatorText| <= |r| && r[|r| - |operatorText|..] == operatorText
    // and nothing else is printed: the text is exactly these pieces in this order
    ensures r == printer(e.operand)
                 + (if e.state.applyPendingSelector then ".PendingSelect(" + printer(SelectorLambda(e.state.pendingSelector)) + ")" else "")
                 + (if e.state.pendingCardinalityReducingOperator.Some?
                    then ".Pending" + MethodName(e.state.pendingCardinalityReducingOperator.value) else "")
  {
    var operandText := printer(e.operand);
    var selectText := if e.state.applyPendingSelector
                      then ".PendingSelect(" + printer(SelectorLambda(e.state.pendingSelector)) + ")"
                      else "";
    var operatorText := if e.state.pendingCardinalityReducingOperator.Some?
                        then ".Pending" + MethodName(e.state.pendingCardinalityReducingOperator.value)
                        else "";
    var r := operandText + selectText + operatorText;
    assert r[..|operandText|] == operandText;
    assert r[|operandText|..|operandText| + |selectText|] == selectText;
    assert r[|r| - |operatorText|..] == operatorText;
    r
  }

  // ------------------------------------------------ the ordered adapters

  /** What a query enumerates, reduced to a source and the wrappers the
      adapters put around it or create.  Ordering keys are integers compared
      by the default comparer. */
  datatype Sequence<!T> =
    | Source(elements: seq<T>)
    | OrderedQueryableAdapter(adapted: Sequence<T>)
    | OrderedEnumerableAdapter(adapted: Sequence<T>)
    | OrderBy(ordered: Sequence<T>, key: T -> int)
    | OrderByDescending(ordered: Sequence<T>, key: T -> int)

  /** The elements a sequence yields; `sort` is the provider's ordering by
      a key, descending when its flag is set. */
  function Enumerate<T>(s: Sequence<T>, sort: (seq<T>, T -> int, bool) -> seq<T>): seq<T> {
    match s
    case Source(elements) => elements
    case OrderedQueryableAdapter(inner) => Enumerate(inner, sort)
    case OrderedEnumerableAdapter(inner) => Enumerate(inner, sort)
    case OrderBy(inner, key) => sort(Enumerate(inner, sort), key, false)
    case OrderByDescending(inner, key) => sort(Enumerate(inner, sort), key, true)
  }

  function ToOrderedQueryable<T>(source: Sequence<T>): (r: Sequence<T>)
    ensures r.OrderedQueryableAdapter?
  {
    OrderedQueryableAdapter(source)
  }

  function ToOrderedEnumerable<T>(source: Sequence<T>): (r: Sequence<T>)
    ensures r.OrderedEnumerableAdapter?
  {
    OrderedEnumerableAdapter(source)
  }

  /** `CreateOrderedEnumerable` of the enumerable adapter: the adapted source,
      ordered descending exactly when asked to. */
  function CreateOrderedEnumerable<T>(adapter: Sequence<T>, key: T -> int, descending: bool): (r: Sequence<T>)
    requires adapter.OrderedEnumerableAdapter?
    ensures r.OrderByDescending? <==> descending
    ensures r.OrderBy? <==> !descending
  {
    if descending then OrderByDescending(adapter.adapted, key) else OrderBy(adapter.adapted, key)
  }

  /** Both adapters enumerate exactly what their source enumerates, and an
      ordering created on the enumerable adapter orders that source. */
  lemma AdaptersDelegate<T>(source: Sequence<T>, key: T -> int, descending: bool, sort: (seq<T>, T -> int, bool) -> seq<T>)
    ensures Enumerate(ToOrderedQueryable(source), sort) == Enumerate(source, sort)
    ensures Enumerate(ToOrderedEnumerable(source), sort) == Enumerate(source, sort)
    ensures Enumerate(CreateOrderedEnumerable(ToOrderedEnumerable(source), key, descending), sort)
            == sort(Enumerate(source, sort), key, descending)
  {
  }
}
