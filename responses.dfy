/** Shared vocabulary of the pattern card: swipe directions, the two response
    branches and the seven response values, partitioned between the branches. */
module Responses {

  datatype Option<T> = None | Some(value: T)

  /** The direction a card leaves the screen in (`'left' | 'right'`). */
  datatype Direction = Left | Right

  /** `ResponseTypeEnum`: accepting or rejecting the presented pattern. */
  datatype ResponseType = Accept | Reject

  /** `ResponseEnum`: the follow-up answers a user can give. */
  datatype ResponseValue =
    | ShareReflection | PerformExercise | ThinkLater
    | AlreadyAddressed | MaybeLater | NoValue | DontUnderstand

  /** The branch each response value belongs to: the first three answer an
      accepted pattern, the last four a rejected one. */
  function Branch(v: ResponseValue): ResponseType
  {
    match v
    case ShareReflection | PerformExercise | ThinkLater => Accept
    case AlreadyAddressed | MaybeLater | NoValue | DontUnderstand => Reject
  }

  /** The response `v` answers a dialog of type `rt`. */
  predicate SameBranch(rt: ResponseType, v: ResponseValue)
  {
    Branch(v) == rt
  }
}
