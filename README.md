# Acquisitions service: request decisions, signup and signin

A Dafny model of the decision logic of a small HTTP user service. Three parts are covered:

- **The user-management handlers** (`fetchAllUsers`, `getUserById`, `updateUser`, `deleteUser`). Each handler is a chain of guards with early returns. It is modelled as a function of the inputs it consults, out of: the id-validation result (all but `fetchAllUsers`), the body-validation result (`updateUser` only), the authenticated principal, `req.user` or none (`updateUser` and `deleteUser`), and the outcome of the user-service call (all four). It returns the response sent (status and JSON body) and the service call made, if any. From these the model proves:
  - the order of the checks: 400, then 401, then 403, then the service call, then 404 or 500;
  - the self-or-admin rule;
  - the rule that only admins may change a role;
  - the mapping of thrown errors to 404 or 500.
- **The authentication service** (`hashPassword`, `comparePassword`, `authenticateUser`, `createUser`):
  - The users table is a map from id to row, together with the store's serial counter. The unique constraint on `email` is its invariant.
  - bcrypt's `hash` and `compare` are uninterpreted functions, supplied as a `Hasher`. The only thing assumed of them is the predicate `Sound`: a password matches its own hash. It is stated as a precondition where a proof needs it.
  - `authenticateUser` is a pure lookup-and-check.
  - `createUser` is a guarded insert. `CreateAsWritten` is the code as it stands. `Create` is the same with its catch block corrected (see Findings); it specifies the method `CreateUser` of the class `UserTable`, which updates the table in place. The two differ only in the message of one kind of error, and the contract of `CreateAsWritten` says so.
- **The signup handler** (`signup`) is a decision function. Its inputs are the validation result, the outcome of `createUser`, the token signer and `NODE_ENV`. Its outputs are the status, the body, the cookie set, the claims signed and the argument passed to `createUser`.

Modules:
- `Common`: `Option`, `Result`, thrown errors with an optional `cause.code`, and validation results.
- `UsersControllers`
- `AuthService`
- `AuthControllers`
- `SignupFlow`: lemmas about whole requests that combine the service and the handler.

Inputs taken as parameters:
- identifiers are integers, compared with strict equality;
- the clock (`createdAt`) is a parameter;
- a failure of a database query is an optional error supplied for that query. This also covers the race between the existence check and the insert, which shows up as a unique violation (`23505`) raised by the insert.

## Model

| member | source | states |
|---|---|---|
| `UsersControllers.FetchAllUsers` | src/controllers/users.controllers.js:7-27 | Always calls the service. Answers 200 exactly when the service returns, with message "Users fetched successfully", `users` the returned list and `count` its length. Any error gives the fixed 500 "Failed to fetch users". |
| `UsersControllers.ServiceFailure` | src/controllers/users.controllers.js:51-65 | A thrown error becomes 404 exactly when its message is "User not found". Every other error becomes 500 with the handler's fixed message. |
| `UsersControllers.ServiceFailureHidesDetail` | src/controllers/users.controllers.js:138-141 | Two errors that are not "User not found" produce the same response: nothing of the error reaches the client. |
| `UsersControllers.GetUserById` | src/controllers/users.controllers.js:29-66 | The service is called iff the id validates, and then with that id. An invalid id gives 400 with the validation details. Gives 200 with the user iff the fetch succeeds; otherwise applies the 404/500 mapping. |
| `UsersControllers.UpdateUser` | src/controllers/users.controllers.js:68-143 | 400 iff the id or the body fails validation; an id failure is reported before a body failure. 401 iff both validate and there is no principal, with body "Unauthorized"/"Authentication required". 403 iff there is a principal and the policy refuses. Not self-or-admin is checked first and gives "You can only update your own information". Only then does a truthy `role` from a non-admin give "Only admins can change user roles". The service is called iff all checks pass, with the validated id and updates. The answer is then 200 with the updated user, or the 404/500 mapping. |
| `UsersControllers.DeleteUser` | src/controllers/users.controllers.js:145-201 | 400 iff the id fails validation. 401 iff it validates and there is no principal, with body "Unauthorized"/"Authentication required". 403 iff the principal is neither the target nor an admin, with message "You can only delete your own account". Otherwise the service is called with the id and the answer is 200 with its result, or the 404/500 mapping. |
| `UsersControllers.UpdateRefusalIgnoresOutcome` | src/controllers/users.controllers.js:71-121 | When `updateUser` refuses before the service call, its response does not depend on what the service would have done. |
| `UsersControllers.DeleteRefusalIgnoresOutcome` | src/controllers/users.controllers.js:148-179 | Likewise for `deleteUser`. |
| `UsersControllers.UnauthenticatedBadInputIsValidationError` | src/controllers/users.controllers.js:71-101 | An unauthenticated update with a bad id or body gets 400, not 401. |
| `UsersControllers.RoleChangeOnlyByAdmins` | src/controllers/users.controllers.js:111-117 | A non-admin whose payload has a truthy `role` gets 403, even for their own record. An admin with the same payload always reaches the service. |
| `UsersControllers.DeleteHasNoRoleRule` | src/controllers/users.controllers.js:169-179 | A deletion reaches the service whenever an update by the same principal on the same id would. Self-or-admin alone is enough to delete. |
| `AuthService.HashPassword` | src/Services/auth.service.js:7-14 | Succeeds exactly when the primitive does, with its digest. Otherwise fails with "Error hashing". |
| `AuthService.ComparePassword` | src/Services/auth.service.js:16-23 | Returns the primitive's verdict when it has one. Otherwise fails with "Error comparing password". |
| `AuthService.FindByEmail` | src/Services/auth.service.js:28-32 | Finds nothing iff no row has the email. Otherwise returns a row of the table with that email. |
| `AuthService.WithoutPasswordDropsOnlyPassword` | src/Services/auth.service.js:42-44 | Two rows look the same to callers iff they differ at most in the password: exactly the password column is removed. |
| `AuthService.AuthenticateCatch` | src/Services/auth.service.js:46-55 | An error whose message is "User not found" or "Invalid credentials" escapes as the same error. Every other error, a store failure included, becomes exactly "Error authenticating user". |
| `AuthService.AuthenticateUser` | src/Services/auth.service.js:25-56 | An absent email gives "User not found". A present email succeeds iff compare says true, and then returns that row without its password. A false compare gives "Invalid credentials". A failing compare gives "Error authenticating user". A query failure goes through the catch. Every error is one of the three messages. The table is only read. |
| `AuthService.CreateCatchAsWritten` | src/Services/auth.service.js:79-88 | As written: the result is "User already exists" iff the error's cause code is 23505. Every other error, including the existence check's own error, becomes "Error creating user". |
| `AuthService.CreateAsWritten` | src/Services/auth.service.js:58-89 | The code as written. It leaves the same table as `Create`, keeps the invariant, and succeeds in the same cases with the same user, so every success property of `Create` holds of it. Errors go through the as-written catch: a query failure, a hashing failure and an insert failure are each mapped by it. When the existence check finds the email, the table is unchanged and the error is "Error creating user". When that check does not fire and no fault carries the message "User already exists", the result equals that of `Create`. |
| `AuthService.CreateCatch` | src/Services/auth.service.js:79-88 | Corrected catch: the result is "User already exists" iff the cause code is 23505 or the error is the existence check's. Every other error becomes "Error creating user". |
| `AuthService.Create` | src/Services/auth.service.js:58-89 | Corrected catch (see Findings). Success iff the query works, the email is absent, hashing succeeds and the insert does not fail. A success inserts exactly one row under a fresh id and leaves every other row unchanged. That row holds the name, email and role given, the hash of the password and the creation time, and `createUser` returns it without the password. On failure the table is unchanged and the message is "User already exists" or "Error creating user". A registered email gives "User already exists", where the code as written gives "Error creating user". A query failure or an insert failure goes through the corrected catch: "User already exists" for code 23505, otherwise "Error creating user". A hashing failure gives "Error creating user". The email-uniqueness invariant is kept. |
| `AuthService.UserTable.CreateUser` | src/Services/auth.service.js:58-89 | Runs the existence check, the hashing and the insert on the table held in place. It keeps the table invariant, and its new table and result are those of `Create` on the old table. |
| `AuthControllers.SignToken` | src/Utils/jwt.js:10-20 | Returns the signer's token. When the library fails, fails with "Failed to authenticate token". |
| `AuthControllers.Signup` | src/controllers/auth.controllers.js:7-53 | Invalid body: 400 with the details, `createUser` not called, no cookie, nothing signed. Otherwise `createUser` gets the validated data. The claims signed are exactly the created user's id, email and role. 201 iff creation and signing succeed. A cookie is set iff the status is 201: named `token`, holding the token, httpOnly, maxAge 86400000 ms, and secure iff NODE_ENV is "production". The 201 body holds only the id, name, email and role. "User already exists" gives 409 "Email already exists". Every other error gives 500 with the error's own message. |
| `SignupFlow.CreatedUserCanSignIn` | src/Services/auth.service.js:25-89 | For a sound hasher: after a successful `createUser`, `authenticateUser` with the same email and password returns exactly the user `createUser` returned. |
| `SignupFlow.CreateKeepsOtherSignIns` | src/Services/auth.service.js:69-74 | `createUser` never changes the sign-in result for any other email. |
| `SignupFlow.SignupIssuesTokenForStoredUser` | src/controllers/auth.controllers.js:20-39 | A successful signup answers 201. Its token claims and its body user are those of the row just inserted, which holds the given email and role. |
| `SignupFlow.SecondSignupConflicts` | src/controllers/auth.controllers.js:44-46 | With the corrected catch, signing up again with a registered email adds no row and answers 409 "Email already exists". |
| `SignupFlow.SecondSignupAsWrittenIsServerError` | src/Services/auth.service.js:61-88 | As written, the same second signup adds no row but answers 500 "Error creating user". |
| `SignupFlow.DuplicateSignupExample` | src/Services/auth.service.js:63-64 | A concrete instance: the same signup sent twice to an empty table gives 201, then 500, and the second request leaves the table unchanged. |

## Findings

| source | as written | input that shows it | evidently intended | confidence | as-written member | corrected member |
|---|---|---|---|---|---|---|
| src/Services/auth.service.js:64 | The existence check throws "User already exists" inside the `try`. The `catch` at lines 79-88 rewrites every error without cause code 23505 to "Error creating user". So `signup` answers 500 "Error creating user" to an already registered email. | Sign up {name "A", email "a@x.com", password "secret1", role "user"} twice against an empty table. | The error escapes, so that the handler's 409 "Email already exists" branch (src/controllers/auth.controllers.js:44-46) fires. The comment at line 64 says so, and a 23505 from the insert already maps to the same message. | high (proved of the model; not executed) | `SignupFlow.SecondSignupAsWrittenIsServerError`, `SignupFlow.DuplicateSignupExample` (over `AuthService.CreateCatchAsWritten`) | `SignupFlow.SecondSignupConflicts` (over `AuthService.CreateCatch`, used by `AuthService.Create` and `AuthService.UserTable.CreateUser`) |

## Left out

- AuthService.Create: the contract says the stored password is the hasher's output for the plaintext. It does not say the output differs from the plaintext, because bcrypt is uninterpreted here.
- AuthService.Create: models `createUser` with the corrected catch block. For a registered email it gives "User already exists" where the code as written gives "Error creating user"; the code as written is `AuthService.CreateAsWritten`, whose contract ties it to `Create`.
- AuthService.UserTable.CreateUser: uses the corrected catch block, as the Findings table records. The code as written is modelled by `AuthService.CreateAsWritten`.
- bcrypt internals are foreign calls: salting, cost factor 10, and the non-determinism of salts.
- The Drizzle query builder is a foreign call. A query is modelled by its effect on the table, or by the error it throws.
- `jsonwebtoken` is a foreign call and `src/Utils/jwt.js` is context. Token signing is an uninterpreted `Signer`. Token verification, expiry and the fallback secret are not modelled.
- The user service (`user.service.js`) is not part of this model. Each handler takes its outcome as an input, so "delete twice gives not found" cannot be stated.
- The validation schemas and `formatValidationErrors` are not part of this model. Handlers take the formatted validation result as an input, so the `role` of a new user is whatever the signup schema produced.
- The role of an update payload is an optional string. "Truthy" means present and not empty; non-string values that the schema might admit are not modelled.
- Logging has no effect on responses and is left out.
- `await` sequencing is left out.
- The race between the existence check and the insert is not modelled as interleaving. It appears only as a possible 23505 error from the insert.
- `src/app.js` is HTTP plumbing and is left out: middleware, helmet, cors, morgan, cookie parsing, the Arcjet middleware, the 404 and error handlers, and the health endpoint. The health endpoint depends on the wall clock and the process uptime.
- Signin and signout handlers are not part of this model. Sign-in is covered at the service level by `AuthService.AuthenticateUser`.
- A 500 from `signup` returns the error's own message in every environment, because the code does so. The model follows the code, not a design that hides details outside development.
