/** What both session stores are asked and what they answer (sessions/interfaces.go, sessions/errors.go). */
module SessionApi {
  import opened Options

  datatype Error =
    | SessFound
    | UUIDDup
    | SessNotFound
    | SessInUse
    | SessExpired
    | IndexItemFound
    | IndexNotFound
    | KeyRefused

  /**
   One call.  The clock readings a call takes are its parameters: `check` is compared
   with the expiry, and the session then expires the time to live after `now`.
   The handle that is given back is a name for one of the sessions that New and Restore
   returned: the stores look at its uuid only.  Cleanup is one pass over the in-memory
   index; `due` is its test.
   */
  datatype Op =
    | New(uuid: string, now: int)
    | Restore(uuid: string, check: int, now: int)
    | Return(uuid: string, handle: nat)
    | Delete(uuid: string)
    | IsInUse(uuid: string)
    | Ttl(uuid: string, check: int)
    | Cleanup(due: (string, int) -> bool)

  datatype Reply =
    | Handle(uuid: string)
    | Done
    | Used(inUse: bool)
    | Expires(at: int)
    | Failed(error: Error)
    | FailedWith(error: Error, at: int)
    | Panicked

  /** The reply of a call that returns (Session, error). */
  function HandleOr(uuid: string, err: Option<Error>): Reply {
    if err.Some? then Failed(err.value) else Handle(uuid)
  }

  /** The reply of a call that returns an error only. */
  function DoneOr(err: Option<Error>): Reply {
    if err.Some? then Failed(err.value) else Done
  }
}
