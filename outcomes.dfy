/** Optional values and the exceptions the rewriters can raise, as values. */
module Outcomes {

  datatype Option<+T> = None | Some(value: T)

  /** The .NET exceptions thrown by the modelled code paths. */
  datatype Failure =
    | InvalidOperation(message: string)   // System.InvalidOperationException
    | InvalidCast(message: string)        // a failed reference cast
    | ArgumentNull(message: string)       // a LINQ operator applied to a null source
    | Argument(message: string)           // a type that is not a sequence, a collection index out of range
    | IndexOutOfBounds(message: string)   // System.IndexOutOfRangeException: an array index out of bounds
    | NullReference(message: string)      // a member read through a null reference

  // The messages of the exceptions above, as the modelled code paths raise them.
  const IndexOutOfRange := "Index was out of range"
  const IndexOutsideBounds := "Index was outside the bounds of the array"
  const NullReferenceMessage := "Object reference not set to an instance of an object"
  const MoreThanOneElement := "Sequence contains more than one element"
  const NoElements := "Sequence contains no elements"
  const NotReducible := "must be reducible node"
  const NotSequenceType := "not a sequence type"
  const ParameterRewriteMessage := "When called from 'VisitLambda', rewriting a node of type 'ParameterExpression' must return a non-null value of the same type."
  const CastToLambda := "Unable to cast to LambdaExpression"
  const CastToBinary := "Unable to cast to BinaryExpression"
  const CastToParameter := "Unable to cast to ParameterExpression"
  const CastToExpansion := "Unable to cast to NavigationExpansionExpression"
  const CastToBinding := "Unable to cast to NavigationBindingExpression"
  const NodeOutsideArena := "navigation tree node outside the arena"
  const NestedTooDeeply := "expansions nested too deeply"
  const LambdaSourceMessage := "gfdgdfgdfgdf"
  const UnhandledOperator := "Unhandled operator: "

  datatype Result<+T> = Ok(value: T) | Err(failure: Failure) {
    predicate IsFailure() { Err? }

    function PropagateFailure<U>(): Result<U>
      requires Err?
    {
      Err(failure)
    }

    function Extract(): T
      requires Ok?
    {
      value
    }
  }
}
