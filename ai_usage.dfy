/**
 * The signed-in user's AI quota as the application context keeps it: loaded
 * (or initialised) from the backend once per user, and lowered by one after
 * each successful backend decrement, never below zero.
 *
 * Backend calls are parameters: the reply a call would give, or its failure.
 */
module AiUsage {
  import opened Records

  /** The usage record; only `remainingQuota` is read or written here. */
  datatype Usage = Usage(userId: string, remainingQuota: int)

  /** A backend call that resolves with a value or rejects. */
  datatype Reply<T> = Resolved(value: T) | Rejected

  /** `Math.max(0, v)`. */
  function AtLeastZero(v: int): int
  {
    if v >= 0 then v else 0
  }

  /**
   * The state update after a successful backend decrement: nothing stays
   * nothing; otherwise one less, floored at zero, all else copied.
   */
  function Decremented(prev: Option<Usage>): (r: Option<Usage>)
    ensures r.None? <==> prev.None?
    ensures r.Some? ==> r.value.remainingQuota >= 0
    ensures r.Some? && prev.value.remainingQuota >= 1 ==>
      r.value.remainingQuota == prev.value.remainingQuota - 1
    ensures r.Some? && prev.value.remainingQuota < 1 ==> r.value.remainingQuota == 0
    ensures r.Some? ==> r.value.userId == prev.value.userId
  {
    match prev
    case None => None
    case Some(u) => Some(u.(remainingQuota := AtLeastZero(u.remainingQuota - 1)))
  }

  /**
   * The usage after `n` successful decrements: the quota goes to
   * `max(0, q - n)`, stopping at zero, and the rest of the record is kept.
   */
  function DecrementedTimes(prev: Option<Usage>, n: nat): (r: Option<Usage>)
    ensures r.None? <==> prev.None?
    ensures r.Some? && n >= 1 ==> r.value.remainingQuota >= 0
    ensures prev.Some? && (n >= 1 || prev.value.remainingQuota >= 0) ==>
      r == Some(prev.value.(remainingQuota := AtLeastZero(prev.value.remainingQuota - n)))
  {
    if n == 0 then prev else Decremented(DecrementedTimes(prev, n - 1))
  }

  /**
   * The usage `loadAIUsage` hands to the state: an existing record as it
   * is; with none, the initialised one; a rejection of either call is
   * caught and sets nothing.
   */
  function LoadedUsage(fetched: Reply<Option<Usage>>, initialized: Reply<Usage>): (r: Reply<Usage>)
    ensures fetched.Resolved? && fetched.value.Some? ==> r == Resolved(fetched.value.value)
    ensures fetched.Resolved? && fetched.value.None? ==> r == initialized
    ensures fetched.Rejected? ==> r.Rejected?
  {
    match fetched
    case Rejected => Rejected
    case Resolved(found) =>
      match found
      case Some(u) => Resolved(u)
      case None => initialized
  }

  /** The initialisation call is made exactly when the lookup resolved with nothing. */
  predicate InitializeCalled(fetched: Reply<Option<Usage>>)
  {
    fetched == Resolved(None)
  }

  /** How a call of `decrementUsage` ends. */
  datatype DecrementOutcome = NotSignedIn | BackendFailed | Applied

  class UsageProvider {
    var aiUsage: Option<Usage>

    constructor ()
      ensures aiUsage == None
    {
      aiUsage := None;
    }

    /**
     * `loadAIUsage` for the session's user id: with no (or an empty) id it
     * does nothing; otherwise it stores the loaded usage, and a failure
     * leaves the state as it was. Returns whether the initialisation call
     * was made.
     */
    method LoadAIUsage(userId: Option<string>, fetched: Reply<Option<Usage>>, initialized: Reply<Usage>)
      returns (initCalled: bool)
      modifies this
      ensures initCalled == (Truthy(userId) && InitializeCalled(fetched))
      ensures !Truthy(userId) ==> aiUsage == old(aiUsage)
      ensures Truthy(userId) ==>
        aiUsage == match LoadedUsage(fetched, initialized)
                   case Resolved(u) => Some(u)
                   case Rejected => old(aiUsage)
    {
      initCalled := false;
      if !Truthy(userId) {
        return;
      }
      if fetched.Rejected? {
        return;
      }
      var usage := fetched.value;
      if usage.None? {
        initCalled := true;
        if initialized.Rejected? {
          return;
        }
        usage := Some(initialized.value);
      }
      aiUsage := usage;
    }

    /**
     * `decrementUsage` for the session's user id, given how the backend
     * decrement ends: the local quota changes only after the backend call
     * resolved; a rejection propagates to the caller with the state as it was.
     */
    method DecrementUsage(userId: Option<string>, backend: Reply<()>) returns (outcome: DecrementOutcome)
      modifies this
      ensures !Truthy(userId) ==> outcome == NotSignedIn && aiUsage == old(aiUsage)
      ensures Truthy(userId) && backend.Rejected? ==> outcome == BackendFailed && aiUsage == old(aiUsage)
      ensures Truthy(userId) && backend.Resolved? ==>
        outcome == Applied && aiUsage == Decremented(old(aiUsage))
    {
      if !Truthy(userId) {
        return NotSignedIn;
      }
      if backend.Rejected? {
        return BackendFailed;
      }
      aiUsage := Decremented(aiUsage);
      outcome := Applied;
    }
  }
}
