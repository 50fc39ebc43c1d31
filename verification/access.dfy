/** The allow-list middleware (bot/middlewares/access.py): with a non-empty
    list of user ids, only those users reach the handlers. */
module Access {
  import opened Wrappers

  /** The update a middleware sees: a message or a callback query, each
      with the sender's id when there is a sender, or anything else. */
  datatype Event =
    | MessageEvent(userId: Option<int>)
    | CallbackEvent(userId: Option<int>)
    | OtherEvent

  /** What the middleware does with an event. */
  datatype Outcome =
    | Handled         // the handler is awaited and its result returned
    | DeniedReply     // "Доступ ограничен. Обратитесь к администратору." and None
    | DeniedAlert     // an alert "Доступ ограничен" (its failure swallowed) and None
    | DeniedSilently  // None

  /** `event.from_user.id` for the two event kinds that carry a user. */
  function SenderOf(event: Event): Option<int> {
    match event
    case MessageEvent(u) => u
    case CallbackEvent(u) => u
    case OtherEvent => None
  }

  /** `set(allowed_users or [])` */
  function AllowedSet(allowedUsers: Option<seq<int>>): (s: set<int>)
    ensures allowedUsers.None? ==> s == {}
    ensures allowedUsers.Some? ==> forall u :: u in s <==> u in allowedUsers.value
  {
    if allowedUsers.None? then {} else set u | u in allowedUsers.value
  }

  class AccessMiddleware {
    const allowed: set<int>

    /** `__init__(allowed_users)` */
    constructor (allowedUsers: Option<seq<int>>)
      ensures allowed == AllowedSet(allowedUsers)
    {
      allowed := AllowedSet(allowedUsers);
    }

    /** Whether the event passes: the list is empty, or the sender's id is
        present, non-zero (`user_id and ...`) and listed. */
    predicate Admits(event: Event)
      ensures event.OtherEvent? ==> (Admits(event) <==> allowed == {})
      ensures Admits(event) && allowed != {} ==> SenderOf(event).Some? && SenderOf(event).value in allowed
      ensures SenderOf(event) == Some(0) && allowed != {} ==> !Admits(event)
    {
      allowed == {} || (SenderOf(event).Some? && SenderOf(event).value != 0 && SenderOf(event).value in allowed)
    }

    /** `__call__`: pass the event to the handler, or deny it with the
        feedback its kind allows. */
    method Call(event: Event) returns (outcome: Outcome)
      ensures outcome == Handled <==> Admits(event)
      ensures !Admits(event) && event.MessageEvent? ==> outcome == DeniedReply
      ensures !Admits(event) && event.CallbackEvent? ==> outcome == DeniedAlert
      ensures !Admits(event) && event.OtherEvent? ==> outcome == DeniedSilently
    {
      if allowed == {} {
        return Handled;
      }
      var userId := SenderOf(event);
      if userId.Some? && userId.value != 0 && userId.value in allowed {
        return Handled;
      }
      match event
      case MessageEvent(_) => outcome := DeniedReply;
      case CallbackEvent(_) => outcome := DeniedAlert;
      case OtherEvent => outcome := DeniedSilently;
    }
  }

  /** For a middleware built from `allowedUsers`: an empty or missing list
      lets every event through; a non-empty list lets through exactly the
      listed non-zero senders, so user id 0 and events without a sender
      are always refused by it. */
  lemma {:induction false} AdmitsExactly(m: AccessMiddleware, allowedUsers: Option<seq<int>>, event: Event)
    requires m.allowed == AllowedSet(allowedUsers)
    ensures allowedUsers.None? || allowedUsers == Some([]) ==> m.Admits(event)
    ensures allowedUsers.Some? && allowedUsers.value != [] ==>
              (m.Admits(event) <==> SenderOf(event).Some? && SenderOf(event).value != 0 && SenderOf(event).value in allowedUsers.value)
  {
    if allowedUsers.Some? && allowedUsers.value != [] {
      assert allowedUsers.value[0] in m.allowed;
    }
  }
}
