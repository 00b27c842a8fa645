/** `NavigationExpansionVisitorBase` together with the default traversal of
    .NET's `ExpressionVisitor` that it relies on.  A visitor is given by two
    callbacks: `visit`, the visitor's own `Visit` for sub-expressions (it is
    only ever applied to parts strictly inside the node at hand), and
    `visitParameter`, its `VisitParameter`.  A thrown exception is an `Err`,
    and the casts the code performs on visit results (`(ParameterExpression)`,
    `(LambdaExpression)`, ...) fail with `InvalidCast`. */
module VisitorBase {
  import opened Outcomes
  import opened Clr
  import opened Expressions

  /** Visits the expressions in order; the first failure stops the traversal. */
  function VisitAll(cs: seq<Expr>, visit: Expr --> Result<Expr>): (r: Result<seq<Expr>>)
    requires forall c :: c in cs ==> visit.requires(c)
    ensures r.Ok? <==> forall i :: 0 <= i < |cs| ==> visit(cs[i]).Ok?
    ensures r.Ok? ==> |r.value| == |cs| && forall i :: 0 <= i < |cs| ==> visit(cs[i]) == Ok(r.value[i])
  {
    if cs == [] then Ok([])
    else
      var first :- visit(cs[0]);
      var rest :- VisitAll(cs[1..], visit);
      assert forall i :: 1 <= i < |cs| ==> cs[i] == cs[1..][i - 1];
      Ok([first] + rest)
  }

  /** `VisitParameter` on `p` succeeds with a parameter. */
  predicate VisitsToParameter(p: Param, visitParameter: Param -> Result<Expr>) {
    visitParameter(p).Ok? && visitParameter(p).value.Parameter?
  }

  /** `VisitAndConvert` on lambda parameters: each must visit to a parameter. */
  function VisitParameters(ps: seq<Param>, visitParameter: Param -> Result<Expr>): (r: Result<seq<Param>>)
    ensures r.Ok? <==> forall i :: 0 <= i < |ps| ==> VisitsToParameter(ps[i], visitParameter)
    ensures r.Ok? ==>
              |r.value| == |ps|
              && forall i :: 0 <= i < |ps| ==> visitParameter(ps[i]) == Ok(Parameter(r.value[i]))
  {
    if ps == [] then Ok([])
    else
      assert forall i :: 1 <= i < |ps| ==> ps[i] == ps[1..][i - 1];
      var first :- visitParameter(ps[0]);
      if !first.Parameter? then Err(InvalidOperation(ParameterRewriteMessage))
      else
        var rest :- VisitParameters(ps[1..], visitParameter);
        Ok([first.param] + rest)
  }

  /** The `(ParameterExpression)` cast. */
  function AsParameter(e: Expr): (r: Result<Param>)
    ensures r.Ok? <==> e.Parameter?
    ensures r.Ok? ==> e == Parameter(r.value)
  {
    if e.Parameter? then Ok(e.param) else Err(InvalidCast(CastToParameter))
  }

  /** The `(LambdaExpression)` cast, for the one-parameter lambdas a state holds. */
  function AsSelector(e: Expr): (r: Result<Selector>)
    ensures r.Ok? <==> e.Lambda? && |e.parameters| == 1
    ensures r.Ok? ==> e == SelectorLambda(r.value)
  {
    if e.Lambda? && |e.parameters| == 1 then Ok(Selector(e.parameters[0], e.body))
    else Err(InvalidCast(CastToLambda))
  }

  /** `ExpressionVisitor.VisitLambda`: the body, then the parameters. */
  function VisitLambda(body: Expr, ps: seq<Param>, visit: Expr --> Result<Expr>,
                       visitParameter: Param -> Result<Expr>): (r: Result<Expr>)
    requires visit.requires(body)
    ensures r.Ok? ==> r.value.Lambda? && |r.value.parameters| == |ps| && visit(body) == Ok(r.value.body)
    ensures visit(body) == Ok(body) && (forall p :: p in ps ==> visitParameter(p) == Ok(Parameter(p)))
            ==> r == Ok(Lambda(body, ps))
  {
    var newBody :- visit(body);
    var newParameters :- VisitParameters(ps, visitParameter);
    if newBody == body && newParameters == ps then Ok(Lambda(body, ps))
    else Ok(Lambda(newBody, newParameters))
  }

  /** The default `ExpressionVisitor` traversal of a standard node: parameters
      go to `VisitParameter`, every other node has its sub-expressions visited
      in order and is rebuilt only if one of them changed. */
  function DefaultVisit(e: Expr, visit: Expr --> Result<Expr>, visitParameter: Param -> Result<Expr>): (r: Result<Expr>)
    requires !IsExtension(e)
    requires forall x :: x < e ==> visit.requires(x)
    ensures e.Parameter? ==> r == visitParameter(e.param)
    ensures !e.Parameter? && !e.Lambda? && (forall c :: c in Children(e) ==> visit(c) == Ok(c)) ==> r == Ok(e)
    ensures e.Lambda? && visit(e.body) == Ok(e.body) && (forall p :: p in e.parameters ==> visitParameter(p) == Ok(Parameter(p)))
            ==> r == Ok(e)
    ensures !e.Parameter? && !e.Lambda? && r.Ok? ==>
              |Children(e)| == |Children(r.value)|
              && (forall i :: 0 <= i < |Children(e)| ==> visit(Children(e)[i]) == Ok(Children(r.value)[i]))
  {
    if e.Parameter? then visitParameter(e.param)
    else if e.Lambda? then VisitLambda(e.body, e.parameters, visit, visitParameter)
    else
      var cs := Children(e);
      var newChildren :- VisitAll(cs, visit);
      if newChildren == cs then Ok(e)
      else
        var rebuilt := Rebuild(e, newChildren);
        Ok(rebuilt)
  }

  // ------------------------------------------------ NavigationExpansionVisitorBase

  /** The callbacks leave every part of `e` as it is. */
  ghost predicate LeavesAlone(e: Expr, visit: Expr --> Result<Expr>, visitParameter: Param -> Result<Expr>)
    requires forall x :: x < e ==> visit.requires(x)
  {
    (forall x :: x < e ==> visit(x) == Ok(x))
    && (forall p :: Mentions(e, p) ==> visitParameter(p) == Ok(Parameter(p)))
  }

  /** The parameter callback keeps the parameters a state declares: the
      current parameter and those of the pending selector and orderings. */
  predicate ParametersKept(state: State, visitParameter: Param -> Result<Expr>) {
    visitParameter(state.currentParameter) == Ok(Parameter(state.currentParameter))
    && visitParameter(state.pendingSelector.parameter) == Ok(Parameter(state.pendingSelector.parameter))
    && forall o :: o in state.pendingOrderings ==>
         visitParameter(o.keySelector.parameter) == Ok(Parameter(o.keySelector.parameter))
  }

  /** Callbacks that keep every parameter an expansion mentions keep those of its state. */
  lemma ExpansionParametersKept(e: Expr, visitParameter: Param -> Result<Expr>)
    requires e.Expansion?
    ensures (forall p :: Mentions(e, p) ==> visitParameter(p) == Ok(Parameter(p))) ==>
              ParametersKept(e.state, visitParameter)
  {
    if forall p :: Mentions(e, p) ==> visitParameter(p) == Ok(Parameter(p)) {
      ExpansionParametersKeptWhen(e, visitParameter);
    }
  }

  lemma ExpansionParametersKeptWhen(e: Expr, visitParameter: Param -> Result<Expr>)
    requires e.Expansion?
    requires forall p :: Mentions(e, p) ==> visitParameter(p) == Ok(Parameter(p))
    ensures ParametersKept(e.state, visitParameter)
  {
    assert Mentions(e, e.state.currentParameter);
    assert Mentions(e, e.state.pendingSelector.parameter);
    forall o | o in e.state.pendingOrderings
      ensures visitParameter(o.keySelector.parameter) == Ok(Parameter(o.keySelector.parameter))
    {
      assert Mentions(e, o.keySelector.parameter);
    }
  }

  /** `VisitExtension`: rebuilds a navigation-expansion node from its visited
      parts, returns the identical node when no part changed, and rejects any
      other extension. */
  function VisitExtension(e: Expr, visit: Expr --> Result<Expr>, visitParameter: Param -> Result<Expr>): (r: Result<Expr>)
    requires IsExtension(e)
    requires forall x :: x < e ==> visit.requires(x)
    ensures LeavesAlone(e, visit, visitParameter) && TypedParts(e) && !e.UnknownExtension? ==> r == Ok(e)
    ensures e.UnknownExtension? ==> r.Err? && r.failure.InvalidOperation?
    ensures e.Binding? && r.Ok? ==>
              r.value.Binding?
              && visitParameter(e.rootParameter) == Ok(Parameter(r.value.rootParameter))
              && r.value == e.(rootParameter := r.value.rootParameter)
    ensures e.CustomRoot? && r.Ok? ==>
              r.value.CustomRoot?
              && visitParameter(e.customRootParameter) == Ok(Parameter(r.value.customRootParameter))
              && r.value == e.(customRootParameter := r.value.customRootParameter)
    ensures e.Expansion? && r.Ok? ==>
              r.value.Expansion? && r.value.returnType == e.returnType
              && visit(e.operand) == Ok(r.value.operand)
              && ReplaceState(e.state, visit, visitParameter) == Ok(r.value.state)
    ensures (e.CorrelationPredicate? || e.NullConditional? || e.Include?) && r.Ok? ==>
              r.value.CorrelationPredicate? == e.CorrelationPredicate?
              && r.value.NullConditional? == e.NullConditional?
              && r.value.Include? == e.Include?
  {
    match e
    case Binding(root, node, entityType, sm, t) =>
      var visited :- visitParameter(root);
      var newRoot :- AsParameter(visited);
      if newRoot != root then Ok(Binding(newRoot, node, entityType, sm, t)) else Ok(e)
    case CustomRoot(root, mapping, t) =>
      var visited :- visitParameter(root);
      var newRoot :- AsParameter(visited);
      if newRoot != root then Ok(CustomRoot(newRoot, mapping, t)) else Ok(e)
    case ExpansionRoot(expansion, mapping, t) =>
      var visited :- visit(expansion);
      if !visited.Expansion? then Err(InvalidCast(CastToExpansion))
      else if visited != expansion then Ok(ExpansionRoot(visited, mapping, t))
      else Ok(e)
    case Expansion(operand, state, t) =>
      ExpansionParametersKept(e, visitParameter);
      var newOperand :- visit(operand);
      var newState :- ReplaceState(state, visit, visitParameter);
      if newOperand != operand || newState != state then Ok(Expansion(newOperand, newState, t)) else Ok(e)
    case CorrelationPredicate(nullCheck, equal) =>
      var newNullCheck :- visit(nullCheck);
      var newEqual :- visit(equal);
      if !newEqual.Binary? then Err(InvalidCast(CastToBinary))
      else if newNullCheck != nullCheck || newEqual != equal then Ok(CorrelationPredicate(newNullCheck, newEqual))
      else Ok(e)
    case NullConditional(caller, access) =>
      var newCaller :- visit(caller);
      var newAccess :- visit(access);
      if newCaller != caller || newAccess != access then Ok(NullConditional(newCaller, newAccess)) else Ok(e)
    case Include(entity, navigationExpression, navigation) =>
      var newEntity :- visit(entity);
      var newNavigationExpression :- visit(navigationExpression);
      if newEntity != entity || newNavigationExpression != navigationExpression
      then Ok(Include(newEntity, newNavigationExpression, navigation))
      else Ok(e)
    case UnknownExtension(name, _) =>
      Err(InvalidOperation(UnhandledOperator + name))
  }

  /** `Visit` of a selector lambda followed by the `(LambdaExpression)` cast. */
  function VisitSelector(s: Selector, visit: Expr --> Result<Expr>, visitParameter: Param -> Result<Expr>): (r: Result<Selector>)
    requires visit.requires(s.body)
    ensures r.Ok? ==> visit(s.body) == Ok(r.value.body) && visitParameter(s.parameter) == Ok(Parameter(r.value.parameter))
    ensures visit(s.body) == Ok(s.body) && visitParameter(s.parameter) == Ok(Parameter(s.parameter)) ==> r == Ok(s)
  {
    var visited :- VisitLambda(s.body, [s.parameter], visit, visitParameter);
    AsSelector(visited)
  }

  /** The loop over the pending orderings: each key selector visited, the
      method kept, and whether any entry changed. */
  function ReplaceOrderings(os: seq<Ordering>, visit: Expr --> Result<Expr>, visitParameter: Param -> Result<Expr>): (r: Result<(seq<Ordering>, bool)>)
    requires forall o :: o in os ==> visit.requires(o.keySelector.body)
    ensures r.Ok? ==>
              |r.value.0| == |os|
              && (forall i :: 0 <= i < |os| ==> r.value.0[i].orderingMethod == os[i].orderingMethod)
              && (forall i :: 0 <= i < |os| ==> VisitSelector(os[i].keySelector, visit, visitParameter) == Ok(r.value.0[i].keySelector))
              && (r.value.1 <==> r.value.0 != os)
    ensures (forall o :: o in os ==> VisitSelector(o.keySelector, visit, visitParameter) == Ok(o.keySelector))
            ==> r == Ok((os, false))
    decreases |os|
  {
    if os == [] then Ok(([], false))
    else
      var init := os[..|os| - 1];
      var last := os[|os| - 1];
      var (done, changed) :- ReplaceOrderings(init, visit, visitParameter);
      var newKeySelector :- VisitSelector(last.keySelector, visit, visitParameter);
      var entry := if newKeySelector != last.keySelector then Ordering(last.orderingMethod, newKeySelector) else last;
      OrderingAppended(os, done, entry, visit, visitParameter);
      Ok((done + [entry], changed || newKeySelector != last.keySelector))
  }

  /** One more entry of the loop: what holds of the visited prefix and of the
      last entry holds of the whole list. */
  lemma OrderingAppended(os: seq<Ordering>, done: seq<Ordering>, entry: Ordering,
                         visit: Expr --> Result<Expr>, visitParameter: Param -> Result<Expr>)
    requires os != [] && |done| == |os| - 1
    requires forall o :: o in os ==> visit.requires(o.keySelector.body)
    requires forall i :: 0 <= i < |done| ==> done[i].orderingMethod == os[i].orderingMethod
    requires forall i :: 0 <= i < |done| ==> VisitSelector(os[i].keySelector, visit, visitParameter) == Ok(done[i].keySelector)
    requires entry.orderingMethod == os[|done|].orderingMethod
    requires VisitSelector(os[|done|].keySelector, visit, visitParameter) == Ok(entry.keySelector)
    ensures forall i :: 0 <= i < |os| ==> (done + [entry])[i].orderingMethod == os[i].orderingMethod
    ensures forall i :: 0 <= i < |os| ==> VisitSelector(os[i].keySelector, visit, visitParameter) == Ok((done + [entry])[i].keySelector)
    ensures done + [entry] != os <==> done != os[..|done|] || entry != os[|done|]
  {
    assert os == os[..|done|] + [os[|done|]];
    if done + [entry] == os {
      assert done == (done + [entry])[..|done|];
    }
  }

  /** A failure while visiting a prefix of the orderings is the failure of the whole loop. */
  lemma {:induction false} ReplaceOrderingsPrefixFailure(os: seq<Ordering>, j: nat, visit: Expr --> Result<Expr>,
                                                        visitParameter: Param -> Result<Expr>)
    requires forall o :: o in os ==> visit.requires(o.keySelector.body)
    requires j <= |os|
    requires forall o :: o in os[..j] ==> visit.requires(o.keySelector.body)
    requires ReplaceOrderings(os[..j], visit, visitParameter).Err?
    ensures ReplaceOrderings(os, visit, visitParameter) == ReplaceOrderings(os[..j], visit, visitParameter)
    decreases |os| - j
  {
    if j < |os| {
      ReplaceOrderingsSnoc(os, j, visit, visitParameter);
      assert forall o :: o in os[..j + 1] ==> o in os;
      ReplaceOrderingsPrefixFailure(os, j + 1, visit, visitParameter);
    } else {
      assert os[..j] == os;
    }
  }

  /** The loop's step from the first `k` orderings to the first `k + 1`. */
  lemma ReplaceOrderingsSnoc(os: seq<Ordering>, k: nat, visit: Expr --> Result<Expr>, visitParameter: Param -> Result<Expr>)
    requires k < |os|
    requires forall o :: o in os ==> visit.requires(o.keySelector.body)
    ensures forall o :: o in os[..k] ==> o in os
    ensures forall o :: o in os[..k + 1] ==> o in os
    ensures ReplaceOrderings(os[..k], visit, visitParameter).Err? ==>
              ReplaceOrderings(os[..k + 1], visit, visitParameter) == ReplaceOrderings(os[..k], visit, visitParameter)
    ensures ReplaceOrderings(os[..k], visit, visitParameter).Ok? ==>
              var prev := ReplaceOrderings(os[..k], visit, visitParameter).value;
              var visited := VisitSelector(os[k].keySelector, visit, visitParameter);
              ReplaceOrderings(os[..k + 1], visit, visitParameter)
              == if visited.Err? then Err(visited.failure)
                 else if visited.value != os[k].keySelector
                 then Ok((prev.0 + [Ordering(os[k].orderingMethod, visited.value)], true))
                 else Ok((prev.0 + [os[k]], prev.1))
  {
    assert os[..k + 1][..k] == os[..k];
    assert os[..k + 1][k] == os[k];
    assert forall o :: o in os[..k + 1] ==> o in os;
  }

  /** `ReplaceNavigationExpansionExpressionState`. */
  function ReplaceState(state: State, visit: Expr --> Result<Expr>, visitParameter: Param -> Result<Expr>): (r: Result<State>)
    requires forall x :: x < state ==> visit.requires(x)
    ensures r.Ok? ==>
              r.value.sourceMappings == state.sourceMappings
              && r.value.applyPendingSelector == state.applyPendingSelector
              && r.value.pendingCardinalityReducingOperator == state.pendingCardinalityReducingOperator
              && r.value.pendingTags == state.pendingTags
              && r.value.customRootMappings == state.customRootMappings
              && r.value.materializeCollectionNavigation == state.materializeCollectionNavigation
              && |r.value.pendingOrderings| == |state.pendingOrderings|
              && (forall i :: 0 <= i < |state.pendingOrderings| ==>
                    r.value.pendingOrderings[i].orderingMethod == state.pendingOrderings[i].orderingMethod)
    ensures (forall x :: x < state ==> visit(x) == Ok(x)) && ParametersKept(state, visitParameter)
            && StateTypedParts(state)
            ==> r == Ok(state)
  {
    var visitedParameter :- visitParameter(state.currentParameter);
    var newCurrentParameter :- AsParameter(visitedParameter);
    var newPendingSelector :- VisitSelector(state.pendingSelector, visit, visitParameter);
    OrderingsLeftAlone(state, visit, visitParameter);
    var (newPendingOrderings, orderingsChanged) :- ReplaceOrderings(state.pendingOrderings, visit, visitParameter);
    var newPendingIncludeChain :- VisitIncludeChain(state, visit);
    if newCurrentParameter != state.currentParameter
       || newPendingSelector != state.pendingSelector
       || orderingsChanged
       || newPendingIncludeChain != state.pendingIncludeChain
    then Ok(State(newCurrentParameter, state.sourceMappings, newPendingSelector, state.applyPendingSelector,
                  newPendingOrderings, newPendingIncludeChain, state.pendingCardinalityReducingOperator,
                  state.pendingTags, state.customRootMappings, state.materializeCollectionNavigation))
    else Ok(state)
  }

  /** Callbacks that leave every part of a state alone leave each ordering's
      key selector alone. */
  lemma OrderingsLeftAlone(state: State, visit: Expr --> Result<Expr>, visitParameter: Param -> Result<Expr>)
    requires forall x :: x < state ==> visit.requires(x)
    ensures forall o :: o in state.pendingOrderings ==> visit.requires(o.keySelector.body)
    ensures (forall x :: x < state ==> visit(x) == Ok(x)) && ParametersKept(state, visitParameter) ==>
              forall o :: o in state.pendingOrderings ==> VisitSelector(o.keySelector, visit, visitParameter) == Ok(o.keySelector)
  {
    forall o | o in state.pendingOrderings ensures o.keySelector.body < state {
    }
  }

  /** The pending include chain, visited and cast back to a binding. */
  function VisitIncludeChain(state: State, visit: Expr --> Result<Expr>): (r: Result<Option<Expr>>)
    requires forall x :: x < state ==> visit.requires(x)
    ensures state.pendingIncludeChain.None? ==> r == Ok(None)
    ensures state.pendingIncludeChain.Some? ==>
              (r.Ok? <==> visit(state.pendingIncludeChain.value).Ok? && visit(state.pendingIncludeChain.value).value.Binding?)
              && (r.Ok? ==> r == Ok(Some(visit(state.pendingIncludeChain.value).value)))
  {
    match state.pendingIncludeChain
    case None => Ok(None)
    case Some(chain) =>
      var visited :- visit(chain);
      if visited.Binding? then Ok(Some(visited)) else Err(InvalidCast(CastToBinding))
  }

  /** The ordering loop of `ReplaceNavigationExpansionExpressionState`, step by step. */
  method ReplacePendingOrderings(os: seq<Ordering>, visit: Expr --> Result<Expr>, visitParameter: Param -> Result<Expr>)
    returns (r: Result<(seq<Ordering>, bool)>)
    requires forall o :: o in os ==> visit.requires(o.keySelector.body)
    ensures r == ReplaceOrderings(os, visit, visitParameter)
  {
    var newPendingOrderings: seq<Ordering> := [];
    var pendingOrderingsChanged := false;
    for k := 0 to |os|
      invariant ReplaceOrderings(os[..k], visit, visitParameter) == Ok((newPendingOrderings, pendingOrderingsChanged))
    {
      ReplaceOrderingsSnoc(os, k, visit, visitParameter);
      var ordering := os[k];
      var visited := VisitSelector(ordering.keySelector, visit, visitParameter);
      if visited.Err? {
        ReplaceOrderingsPrefixFailure(os, k + 1, visit, visitParameter);
        return Err(visited.failure);
      }
      if visited.value != ordering.keySelector {
        newPendingOrderings := newPendingOrderings + [Ordering(ordering.orderingMethod, visited.value)];
        pendingOrderingsChanged := true;
      } else {
        newPendingOrderings := newPendingOrderings + [ordering];
      }
    }
    assert os[..|os|] == os;
    r := Ok((newPendingOrderings, pendingOrderingsChanged));
  }

  // ------------------------------------------------ what a traversal can mention

  /** Every result the callbacks can produce for the parts of `bound` is free of `p`. */
  ghost predicate ResultsAvoid(bound: Expr, visit: Expr --> Result<Expr>, visitParameter: Param -> Result<Expr>, p: Param)
    requires forall x :: x < bound ==> visit.requires(x)
  {
    (forall x :: x < bound && visit(x).Ok? ==> !Mentions(visit(x).value, p))
    && (forall q :: visitParameter(q).Ok? ==> !Mentions(visitParameter(q).value, p))
  }

  /** The default traversal builds its result only from what the callbacks return. */
  lemma DefaultVisitAvoids(e: Expr, visit: Expr --> Result<Expr>, visitParameter: Param -> Result<Expr>, p: Param)
    requires !IsExtension(e)
    requires forall x :: x < e ==> visit.requires(x)
    ensures ResultsAvoid(e, visit, visitParameter, p) && DefaultVisit(e, visit, visitParameter).Ok?
            ==> !Mentions(DefaultVisit(e, visit, visitParameter).value, p)
  {
    var r := DefaultVisit(e, visit, visitParameter);
    if ResultsAvoid(e, visit, visitParameter, p) && r.Ok? {
      if e.Lambda? {
        var newParameters := VisitParameters(e.parameters, visitParameter);
        assert newParameters.Ok?;
        forall i | 0 <= i < |e.parameters| ensures newParameters.value[i] != p {
          assert !Mentions(visitParameter(e.parameters[i]).value, p);
        }
        assert p !in newParameters.value;
      } else if !e.Parameter? {
        var cs := Children(e);
        forall c | c in Children(r.value) ensures !Mentions(c, p) {
          var i :| 0 <= i < |Children(r.value)| && Children(r.value)[i] == c;
          assert cs[i] < e;
        }
      }
    }
  }

  /** `VisitExtension` builds its result only from what the callbacks return. */
  lemma VisitExtensionAvoids(e: Expr, visit: Expr --> Result<Expr>, visitParameter: Param -> Result<Expr>, p: Param)
    requires IsExtension(e)
    requires forall x :: x < e ==> visit.requires(x)
    ensures ResultsAvoid(e, visit, visitParameter, p) && VisitExtension(e, visit, visitParameter).Ok?
            ==> !Mentions(VisitExtension(e, visit, visitParameter).value, p)
  {
    if e.Expansion? {
      ExpansionAvoids(e, visit, visitParameter, p);
    } else if e.CorrelationPredicate? || e.NullConditional? || e.Include? {
      TwoPartsAvoid(e, visit, visitParameter, p);
    } else if e.ExpansionRoot? {
      assert e.navigationExpansion < e;
    }
  }

  lemma ExpansionAvoids(e: Expr, visit: Expr --> Result<Expr>, visitParameter: Param -> Result<Expr>, p: Param)
    requires e.Expansion?
    requires forall x :: x < e ==> visit.requires(x)
    ensures ResultsAvoid(e, visit, visitParameter, p) && VisitExtension(e, visit, visitParameter).Ok?
            ==> !Mentions(VisitExtension(e, visit, visitParameter).value, p)
  {
    if ResultsAvoid(e, visit, visitParameter, p) && VisitExtension(e, visit, visitParameter).Ok? {
      ReplaceStateAvoids(e.state, e, visit, visitParameter, p);
      assert e.operand < e;
    }
  }

  lemma TwoPartsAvoid(e: Expr, visit: Expr --> Result<Expr>, visitParameter: Param -> Result<Expr>, p: Param)
    requires e.CorrelationPredicate? || e.NullConditional? || e.Include?
    requires forall x :: x < e ==> visit.requires(x)
    ensures ResultsAvoid(e, visit, visitParameter, p) && VisitExtension(e, visit, visitParameter).Ok?
            ==> !Mentions(VisitExtension(e, visit, visitParameter).value, p)
  {
    match e
    case CorrelationPredicate(a, b) =>
      assert a < e && b < e;
    case NullConditional(a, b) =>
      assert a < e && b < e;
    case Include(a, b, _) =>
      assert a < e && b < e;
  }

  lemma VisitSelectorAvoids(s: Selector, visit: Expr --> Result<Expr>, visitParameter: Param -> Result<Expr>, p: Param)
    requires visit.requires(s.body)
    requires visit(s.body).Ok? ==> !Mentions(visit(s.body).value, p)
    requires forall q :: visitParameter(q).Ok? ==> !Mentions(visitParameter(q).value, p)
    ensures VisitSelector(s, visit, visitParameter).Ok? ==>
              VisitSelector(s, visit, visitParameter).value.parameter != p
              && !Mentions(VisitSelector(s, visit, visitParameter).value.body, p)
  {
    if VisitSelector(s, visit, visitParameter).Ok? {
      assert !Mentions(visitParameter(s.parameter).value, p);
    }
  }

  lemma ReplaceStateAvoids(state: State, bound: Expr, visit: Expr --> Result<Expr>, visitParameter: Param -> Result<Expr>, p: Param)
    requires bound.Expansion? && state == bound.state
    requires forall x :: x < bound ==> visit.requires(x)
    requires ResultsAvoid(bound, visit, visitParameter, p)
    ensures ReplaceState(state, visit, visitParameter).Ok? ==>
              var s := ReplaceState(state, visit, visitParameter).value;
              s.currentParameter != p
              && s.pendingSelector.parameter != p && !Mentions(s.pendingSelector.body, p)
              && (forall o :: o in s.pendingOrderings ==> o.keySelector.parameter != p && !Mentions(o.keySelector.body, p))
              && (s.pendingIncludeChain.Some? ==> !Mentions(s.pendingIncludeChain.value, p))
  {
    var r := ReplaceState(state, visit, visitParameter);
    if r.Ok? {
      ReplaceStateParts(state, visit, visitParameter);
      assert !Mentions(visitParameter(state.currentParameter).value, p);
      assert state.pendingSelector.body < bound;
      VisitSelectorAvoids(state.pendingSelector, visit, visitParameter, p);
      OrderingsAvoid(state.pendingOrderings, bound, visit, visitParameter, p);
      if state.pendingIncludeChain.Some? {
        assert state.pendingIncludeChain.value < bound;
      }
    }
  }

  /** Where each part of a replaced state comes from. */
  lemma ReplaceStateParts(state: State, visit: Expr --> Result<Expr>, visitParameter: Param -> Result<Expr>)
    requires forall x :: x < state ==> visit.requires(x)
    ensures forall o :: o in state.pendingOrderings ==> visit.requires(o.keySelector.body)
    ensures ReplaceState(state, visit, visitParameter).Ok? ==>
              var s := ReplaceState(state, visit, visitParameter).value;
              visitParameter(state.currentParameter) == Ok(Parameter(s.currentParameter))
              && VisitSelector(state.pendingSelector, visit, visitParameter) == Ok(s.pendingSelector)
              && ReplaceOrderings(state.pendingOrderings, visit, visitParameter).Ok?
              && ReplaceOrderings(state.pendingOrderings, visit, visitParameter).value.0 == s.pendingOrderings
              && VisitIncludeChain(state, visit) == Ok(s.pendingIncludeChain)
  {
    OrderingsLeftAlone(state, visit, visitParameter);
  }

  lemma OrderingsAvoid(os: seq<Ordering>, bound: Expr, visit: Expr --> Result<Expr>, visitParameter: Param -> Result<Expr>, p: Param)
    requires forall o :: o in os ==> o.keySelector.body < bound
    requires forall x :: x < bound ==> visit.requires(x)
    requires ResultsAvoid(bound, visit, visitParameter, p)
    ensures ReplaceOrderings(os, visit, visitParameter).Ok? ==>
              forall o :: o in ReplaceOrderings(os, visit, visitParameter).value.0 ==>
                o.keySelector.parameter != p && !Mentions(o.keySelector.body, p)
  {
    var r := ReplaceOrderings(os, visit, visitParameter);
    if r.Ok? {
      forall o | o in r.value.0 ensures o.keySelector.parameter != p && !Mentions(o.keySelector.body, p) {
        var i :| 0 <= i < |r.value.0| && r.value.0[i] == o;
        assert os[i] in os;
        VisitSelectorAvoids(os[i].keySelector, visit, visitParameter, p);
      }
    }
  }
}
