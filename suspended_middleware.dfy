/**
 * The middleware that turns away suspended accounts before any controller
 * runs.
 */
module SuspendedMiddleware {
  import opened Wrappers
  import opened Http
  import opened Users

  /** What the middleware does with a request: answer it itself, or hand it to the next handler once. */
  datatype Decision =
    | Reject(status: Status, errorCode: string)
    | CallNext

  /** The number of times the next handler runs for a decision. */
  function NextCalls(d: Decision): nat {
    if d.CallNext? then 1 else 0
  }

  /** `handle`: `user` is the authenticated user, `None` for a guest. */
  function Handle(user: Option<User>): (d: Decision)
    ensures d.Reject? <==> user.Some? && user.value.status == "suspended"
    ensures d.Reject? ==> d.status == Forbidden && Code(d.status) == 403 && d.errorCode == "ACCOUNT_SUSPENDED"
    ensures NextCalls(d) == (if d.Reject? then 0 else 1)
  {
    if user.Some? && user.value.status == "suspended" then Reject(Forbidden, "ACCOUNT_SUSPENDED")
    else CallNext
  }

  /** Guests, and users of any other status such as `inactive`, go through. */
  lemma OnlySuspendedStopped(user: Option<User>)
    requires user.None? || user.value.status != "suspended"
    ensures Handle(user) == CallNext
    ensures user.Some? && user.value.status == "inactive" ==> NextCalls(Handle(user)) == 1
  {
  }
}
