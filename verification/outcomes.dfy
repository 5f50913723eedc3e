/** Java's `null` and its three exception kinds, as values.

  `Option` stands for a reference that may be `null`; `Result` carries either
  the value an operation returns or the exception it throws. The exception
  kinds are the two tiers of construction errors (`IllegalArgumentException`
  for a malformed argument, `OpenDataException` for a schema violation) and
  the `InvalidKeyException` of the keyed accessor.
 */
module Outcomes {

  datatype Option<+T> = None | Some(value: T)

  /** Why an argument is malformed; the index names the first offending element. */
  datatype ArgumentProblem =
    | NullCompositeType
    | NullOrEmptyNames
    | NullName(index: nat)
    | BlankName(index: nat)
    | NullOrEmptyValues
    | LengthMismatch(names: nat, values: nat)
    | NullOrBlankKey

  /** Why the items do not conform to the composite type. */
  datatype SchemaProblem =
    | ItemCountMismatch(found: nat, expected: nat)
    | MissingItemNames
    | InvalidItemValue(index: nat)

  datatype Error =
    | IllegalArgument(argument: ArgumentProblem)
    | OpenData(schema: SchemaProblem)
    | InvalidKey(key: string)

  datatype Result<+T> = Success(value: T) | Failure(error: Error) {
    predicate IsFailure() {
      Failure?
    }

    function PropagateFailure<U>(): Result<U>
      requires Failure?
    {
      Failure(error)
    }

    function Extract(): T
      requires Success?
    {
      value
    }
  }
}
