// The user-management request handlers (src/controllers/users.controllers.js).
//
// Each handler is a chain of guards with early returns. It is modelled as a
// function from what the request and its collaborators supply -- the id and
// body validation results, the authenticated principal set by the auth
// middleware, and the outcome of the user-service call -- to the response
// sent and the service call made, if any. The outcome is only consulted when
// the service is called.
module UsersControllers {
  import opened Common

  /** The authenticated user (`req.user`): the id and role claims of a verified token. */
  datatype Principal = Principal(id: int, role: string)

  /** A validated update payload; each field may be absent. */
  datatype UserUpdates = UserUpdates(name: Option<string>, email: Option<string>, role: Option<string>)

  /** The JSON bodies the handlers send; `V` is what the user service returns. */
  datatype Body<V> =
    | ValidationError(details: seq<FieldError>)      // { error: 'Validation error', details }
    | ErrorMessage(error: string, message: string)   // { error, message }
    | UserList(message: string, users: seq<V>, count: int)
    | UserPayload(message: string, user: V)
    | DataPayload(message: string, data: V)

  datatype Response<V> = Response(status: int, body: Body<V>)

  /** A call into the user service, with the arguments it was given. */
  datatype ServiceCall =
    | GetAllCall
    | GetByIdCall(id: int)
    | UpdateCall(id: int, updates: UserUpdates)
    | DeleteCall(id: int)

  /** What a handler did: the response it sent and the service call it made. */
  datatype Handled<V> = Handled(response: Response<V>, call: Option<ServiceCall>)

  const ADMIN := "admin"

  predicate IsAdmin(p: Principal) {
    p.role == ADMIN
  }

  /** The self-or-admin rule: the principal is the target user or an admin (strict equality of ids). */
  predicate SelfOrAdmin(p: Principal, id: int) {
    p.id == id || IsAdmin(p)
  }

  /** JavaScript truthiness of `updates.role`: present and not the empty string. */
  predicate RequestsRoleChange(u: UserUpdates) {
    u.role.Some? && u.role.value != ""
  }

  /** The full authorization policy for an update: self-or-admin, and only admins change roles. */
  predicate MayUpdate(p: Principal, id: int, u: UserUpdates) {
    SelfOrAdmin(p, id) && (RequestsRoleChange(u) ==> IsAdmin(p))
  }

  function ValidationFailure<V>(details: seq<FieldError>): Response<V> {
    Response(400, ValidationError(details))
  }

  function Unauthenticated<V>(): Response<V> {
    Response(401, ErrorMessage("Unauthorized", "Authentication required"))
  }

  function Forbidden<V>(message: string): Response<V> {
    Response(403, ErrorMessage("Forbidden", message))
  }

  /**
   * The catch block shared by the handlers that take an id: a thrown error
   * whose message is exactly 'User not found' becomes 404; any other becomes
   * 500 with the handler's fixed message and nothing of the error itself.
   */
  function ServiceFailure<V>(e: Error, fallback: string): (r: Response<V>)
    ensures r.status == 404 <==> e.message == USER_NOT_FOUND
    ensures r.status == 404 ==> r.body == ErrorMessage("Not found", USER_NOT_FOUND)
    ensures r.status != 404 ==> r == Response(500, ErrorMessage("Internal server error", fallback))
  {
    if e.message == USER_NOT_FOUND then
      Response(404, ErrorMessage("Not found", USER_NOT_FOUND))
    else
      Response(500, ErrorMessage("Internal server error", fallback))
  }

  /** GET /api/users: no validation and no authentication; any error is a fixed 500. */
  function FetchAllUsers<V>(outcome: Result<seq<V>, Error>): (h: Handled<V>)
    ensures h.call == Some(GetAllCall)
    ensures h.response.status == 200 <==> outcome.Ok?
    ensures h.response.status == 200 ==>
      h.response.body.UserList? && h.response.body.message == "Users fetched successfully" &&
      h.response.body.users == outcome.value && h.response.body.count == |h.response.body.users|
    ensures h.response.status != 200 ==>
      h.response == Response(500, ErrorMessage("Internal server error", "Failed to fetch users"))
  {
    var response := match outcome
      case Ok(users) => Response(200, UserList("Users fetched successfully", users, |users|))
      case Err(_) => Response(500, ErrorMessage("Internal server error", "Failed to fetch users"));
    Handled(response, Some(GetAllCall))
  }

  /** GET /api/users/:id: validate the id, then fetch; no authentication. */
  function GetUserById<V>(idCheck: Validation<int>, outcome: Result<V, Error>): (h: Handled<V>)
    ensures h.call.Some? <==> idCheck.Passed?
    ensures idCheck.Failed? ==> h.response == ValidationFailure(idCheck.details)
    ensures idCheck.Passed? ==> h.call == Some(GetByIdCall(idCheck.data))
    ensures h.response.status == 200 <==> idCheck.Passed? && outcome.Ok?
    ensures h.response.status == 200 ==> h.response.body == UserPayload("User fetched successfully", outcome.value)
    ensures idCheck.Passed? && outcome.Err? ==> h.response == ServiceFailure(outcome.error, "Failed to fetch user")
  {
    match idCheck
    case Failed(details) => Handled(ValidationFailure(details), None)
    case Passed(id) =>
      var response := match outcome
        case Ok(user) => Response(200, UserPayload("User fetched successfully", user))
        case Err(e) => ServiceFailure(e, "Failed to fetch user");
      Handled(response, Some(GetByIdCall(id)))
  }

  /**
   * PUT /api/users/:id. The checks run in a fixed order: id (400), body
   * (400), principal present (401), self-or-admin (403), role change by a
   * non-admin (403); only then is the service called.
   */
  function UpdateUser<V>(idCheck: Validation<int>, bodyCheck: Validation<UserUpdates>,
                         principal: Option<Principal>, outcome: Result<V, Error>): (h: Handled<V>)
    ensures h.response.status == 400 <==> idCheck.Failed? || bodyCheck.Failed?
    ensures idCheck.Failed? ==> h.response == ValidationFailure(idCheck.details)
    ensures idCheck.Passed? && bodyCheck.Failed? ==> h.response == ValidationFailure(bodyCheck.details)
    ensures h.response.status == 401 <==> idCheck.Passed? && bodyCheck.Passed? && principal.None?
    ensures h.response.status == 401 ==> h.response == Unauthenticated()
    ensures h.response.status == 403 <==>
      idCheck.Passed? && bodyCheck.Passed? && principal.Some? &&
      !MayUpdate(principal.value, idCheck.data, bodyCheck.data)
    ensures idCheck.Passed? && bodyCheck.Passed? && principal.Some? && !SelfOrAdmin(principal.value, idCheck.data) ==>
      h.response == Forbidden("You can only update your own information")
    ensures (idCheck.Passed? && bodyCheck.Passed? && principal.Some? && SelfOrAdmin(principal.value, idCheck.data) &&
             RequestsRoleChange(bodyCheck.data) && !IsAdmin(principal.value)) ==>
      h.response == Forbidden("Only admins can change user roles")
    ensures h.call.Some? <==>
      idCheck.Passed? && bodyCheck.Passed? && principal.Some? &&
      MayUpdate(principal.value, idCheck.data, bodyCheck.data)
    ensures h.call.Some? ==>
      h.call.value == UpdateCall(idCheck.data, bodyCheck.data) &&
      h.response == match outcome
        case Ok(user) => Response(200, UserPayload("User updated successfully", user))
        case Err(e) => ServiceFailure(e, "Failed to update user")
  {
    if idCheck.Failed? then Handled(ValidationFailure(idCheck.details), None)
    else if bodyCheck.Failed? then Handled(ValidationFailure(bodyCheck.details), None)
    else
      var id, updates := idCheck.data, bodyCheck.data;
      if principal.None? then Handled(Unauthenticated(), None)
      else if principal.value.id != id && principal.value.role != ADMIN then
        Handled(Forbidden("You can only update your own information"), None)
      else if RequestsRoleChange(updates) && principal.value.role != ADMIN then
        Handled(Forbidden("Only admins can change user roles"), None)
      else
        var response := match outcome
          case Ok(user) => Response(200, UserPayload("User updated successfully", user))
          case Err(e) => ServiceFailure(e, "Failed to update user");
        Handled(response, Some(UpdateCall(id, updates)))
  }

  /**
   * DELETE /api/users/:id. Id (400), principal present (401), self-or-admin
   * (403), then the service. There is no check on roles beyond self-or-admin.
   */
  function DeleteUser<V>(idCheck: Validation<int>, principal: Option<Principal>,
                         outcome: Result<V, Error>): (h: Handled<V>)
    ensures h.response.status == 400 <==> idCheck.Failed?
    ensures idCheck.Failed? ==> h.response == ValidationFailure(idCheck.details)
    ensures h.response.status == 401 <==> idCheck.Passed? && principal.None?
    ensures h.response.status == 401 ==> h.response == Unauthenticated()
    ensures h.response.status == 403 <==>
      idCheck.Passed? && principal.Some? && !SelfOrAdmin(principal.value, idCheck.data)
    ensures h.response.status == 403 ==> h.response == Forbidden("You can only delete your own account")
    ensures h.call.Some? <==>
      idCheck.Passed? && principal.Some? && SelfOrAdmin(principal.value, idCheck.data)
    ensures h.call.Some? ==>
      h.call.value == DeleteCall(idCheck.data) &&
      h.response == match outcome
        case Ok(result) => Response(200, DataPayload("User deleted successfully", result))
        case Err(e) => ServiceFailure(e, "Failed to delete user")
  {
    match idCheck
    case Failed(details) => Handled(ValidationFailure(details), None)
    case Passed(id) =>
      if principal.None? then Handled(Unauthenticated(), None)
      else if principal.value.id != id && principal.value.role != ADMIN then
        Handled(Forbidden("You can only delete your own account"), None)
      else
        var response := match outcome
          case Ok(result) => Response(200, DataPayload("User deleted successfully", result))
          case Err(e) => ServiceFailure(e, "Failed to delete user");
        Handled(response, Some(DeleteCall(id)))
  }

  // Properties relating several calls.

  /** When a handler refuses before calling the service, the service's outcome cannot matter. */
  lemma UpdateRefusalIgnoresOutcome<V>(idCheck: Validation<int>, bodyCheck: Validation<UserUpdates>,
                                       principal: Option<Principal>, o1: Result<V, Error>, o2: Result<V, Error>)
    requires UpdateUser(idCheck, bodyCheck, principal, o1).call.None?
    ensures UpdateUser(idCheck, bodyCheck, principal, o1) == UpdateUser(idCheck, bodyCheck, principal, o2)
  {
  }

  lemma DeleteRefusalIgnoresOutcome<V>(idCheck: Validation<int>, principal: Option<Principal>,
                                       o1: Result<V, Error>, o2: Result<V, Error>)
    requires DeleteUser(idCheck, principal, o1).call.None?
    ensures DeleteUser(idCheck, principal, o1) == DeleteUser(idCheck, principal, o2)
  {
  }

  /** Validation precedes authentication: a bad id or body is a 400 even with no principal. */
  lemma UnauthenticatedBadInputIsValidationError<V>(idCheck: Validation<int>, bodyCheck: Validation<UserUpdates>,
                                                   outcome: Result<V, Error>)
    requires idCheck.Failed? || bodyCheck.Failed?
    ensures UpdateUser(idCheck, bodyCheck, None, outcome).response.status == 400
  {
  }

  /** A non-admin asking for a role change is refused even on their own record; an admin never is on that ground. */
  lemma RoleChangeOnlyByAdmins<V>(id: int, updates: UserUpdates, p: Principal, outcome: Result<V, Error>)
    requires RequestsRoleChange(updates)
    ensures !IsAdmin(p) ==>
      UpdateUser(Passed(id), Passed(updates), Some(p), outcome).response.status == 403
    ensures IsAdmin(p) ==>
      UpdateUser(Passed(id), Passed(updates), Some(p), outcome).call == Some(UpdateCall(id, updates))
  {
  }

  /**
   * Deletion has no role rule: whenever an update by the same principal on
   * the same id would reach the service, so does the deletion, and a
   * principal refused an update only for asking a role change may still
   * delete the record.
   */
  lemma DeleteHasNoRoleRule<V>(id: int, updates: UserUpdates, p: Principal, o: Result<V, Error>)
    ensures UpdateUser(Passed(id), Passed(updates), Some(p), o).call.Some? ==>
      DeleteUser(Passed(id), Some(p), o).call.Some?
    ensures SelfOrAdmin(p, id) ==> DeleteUser(Passed(id), Some(p), o).call == Some(DeleteCall(id))
  {
  }

  /** Errors other than 'User not found' leave no trace of their message in the response. */
  lemma ServiceFailureHidesDetail<V>(e1: Error, e2: Error, fallback: string)
    requires e1.message != USER_NOT_FOUND && e2.message != USER_NOT_FOUND
    ensures ServiceFailure<V>(e1, fallback) == ServiceFailure<V>(e2, fallback)
  {
  }
}
