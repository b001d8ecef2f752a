/** Failure-carrying results shared by every module of the team mailbox model.
    Each `Error` constructor stands for one `throw new Error(...)` of the script;
    the payload keeps the part of the message a caller could match on. */
module Outcomes {

  datatype Option<+T> = None | Some(value: T)

  datatype Error =
    | InvalidName(value: string)             // sanitizeName produced the empty string
    | InvalidBoolean(value: string)          // parseBoolean saw an unknown word
    | MissingArg(argLabel: string)              // requiredOption found nothing usable
    | OptionsTypeError                       // `options._` was overwritten by `--_`, then pushed to
    | TeamNotFound(team: string)
    | TeamExists(team: string)
    | UnsupportedType(messageType: string)
    | MemberNotFound(member: string)
    | MemberExists(member: string)
    | CannotRemoveLead
    | ActiveMembers(names: seq<string>)      // delete refused while teammates remain
    | ContentRequired
    | RecipientRequired(messageType: string)
    | RequestIdRequired(messageType: string)
    | ApproveRequired(messageType: string)
    | InvalidMessage(field: string)          // validateMessageEnvelope's generic checks
    | TypeRequiresRequestId(messageType: string)
    | PlanResponseRequiresRequestId
    | PlanResponseRequiresApprove
    | NoPendingRequest
    | MessageNotFound(id: string)
    | LockFailed(code: string)
    | TimedOut(requestId: string)

  datatype Result<+T> = Ok(value: T) | Err(error: Error) {
    predicate IsFailure() { Err? }

    function PropagateFailure<U>(): Result<U>
      requires Err?
    {
      Err(error)
    }

    function Extract(): T
      requires Ok?
    {
      value
    }
  }
}
