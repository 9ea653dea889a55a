# UserAuth credential lifecycle, modelled in Dafny

This project models the core of the UserAuth API: the Mongoose `User` model
(`models/User.js`) and the decisions its authentication controller makes
(`controllers/auth.controller.js`). It covers registration, login, the
access-token helper that re-saves the user, forgot-password up to the
reset URL it mails, and reset-password. The model keeps the users in an
in-memory collection.

Files:

- `wrappers.dfy`: module `Wrappers`, an `Option` type. `None` stands for JavaScript `undefined`.
- `js_string.dfy`: module `JsString`. It models `String.prototype.trim` with ECMAScript's
  exact set of white-space and line-terminator code points, the optional-chaining
  blank test `field?.trim() === ""`, and string falsiness (`!v`).
- `hex.dfy`: module `Hex`. It models bytes and `buf.toString('hex')`, plus a decoder
  that is proved to invert the encoder.
- `user_model.dfy`: module `UserModel`. It holds the schema as the datatype `UserRecord`
  and the `pre("save")` hook (`AfterSaveHook`). It holds `isPasswordCorrect`,
  `generateAccessToken` (`SignAccessToken`) and `generatePasswordReset`. A Mongoose
  document is the class `UserDocument`; its `passwordModified` field is Mongoose's dirty
  flag for the `password` path. The collection is the class `UserStore` with
  `findOne`, `findById`, `create` and `save`. Its invariant is the unique index on
  `email`, plus ids issued in insertion order.
- `auth_controller.dfy`: module `AuthController`. It has one method per route, over a
  mutable `UserStore`. Each method is proved to return, and to leave behind, exactly what
  a pure outcome function (`RegisterOutcome`, `LoginOutcome`, `ForgotOutcome`,
  `ResetOutcome`) gives for the old contents. Errors are `ApiError(status, message)`,
  with the source's status codes and messages, returned where the source throws. The one
  exception is `IllegalArguments` (500), which stands for a bcrypt failure the source
  only logs (see below).
- `auth_properties.dfy`: module `AuthProperties`. It holds the lifecycle properties as
  lemmas about the outcome functions. Among them: register then login succeeds, a
  consumed reset token cannot be replayed, a second issued token invalidates the first,
  the expiry comparison is strict, and an expired token is indistinguishable from one
  that was never issued.

Collaborators that the model does not see are parameters:

- bcrypt is a `Crypto(hash, compare)` value. The main law relied on is
  `CompareAcceptsHash`: `compare(p, hash(p))` holds. `CompareRejectsOthers` (a stored hash
  verifies no password but its own) is used only where a wrong password must be
  refused: in the third ensures of `IsPasswordCorrect` and in
  `RegisterThenWrongPassword`. Because bcrypt reads only 72 bytes of a password, this
  second law holds only for passwords that differ within those bytes (see "Left out").
- The JWT signer is a function `Claims -> string`. The secret and the expiry are inside it.
- The clock is a `now: nat` argument, in milliseconds.
- `crypto.randomBytes(20)` is an input sequence of 20 bytes.

Behaviour of the code that the model keeps, though a reader might expect otherwise:

- A wrong password is answered with 404 ("Password is incorrect"), the same status as an
  unknown email.
- The blank check only fires for supplied fields. An undefined `name`, `email` or
  `password` passes it, because `undefined?.trim()` is `undefined`. An undefined name or
  email is then stored as undefined. An undefined password does not get that far: on a
  new document Mongoose counts every path it was given as modified, so the save hook
  calls `bcrypt.hash(undefined, 10)`, which rejects, and `create` stores nothing. The
  model answers that case with `IllegalArguments` (500).
- Forgot-password also answers 400 when the email is undefined or `""`. A blank but
  non-empty email such as `"  "` is truthy: it is looked up, and usually gets the 404.
- `select("-password")` removes only the password. The user returned by login therefore
  still carries `resetPasswordToken` and `resetPasswordExpires` when a reset is pending
  (`LoginSucceeds` states the returned user is `Sanitize(users[i])`).
- Assigning to `user.password` marks the path modified only when the value changes
  (Mongoose compares the old and new values). If a reset sends the stored hash string
  itself as the new password, the hook does not hash it (`ResetConsumes`).
- When something the source calls fails (bcrypt with an undefined argument, in `hash` or
  in `compare`), the source only logs the error inside its `try/catch` and never answers.
  The model returns the error instead: `IllegalArguments`, status 500.
- `findOne({email})` with an undefined email is modelled as matching the stored user
  whose email is undefined, as a BSON null query does. This is consistent with the
  unique index, which admits at most one such user. It is an assumption about the
  driver: it holds under its default `ignoreUndefined: false`, which writes `undefined`
  as null. With `ignoreUndefined: true` the filter would become `{}` and match the first
  user, so a registration without an email would get 409 whenever any user exists.

## Model

| member | source | states |
|---|---|---|
| `JsString.Trim` | controllers/auth.controller.js:27 | `s.trim()` is empty exactly when every character of `s` is ECMAScript white space or a line terminator; otherwise it starts and ends with a non-space character |
| `JsString.TrimStart` | controllers/auth.controller.js:27 | the leading-space half of `trim`: the result is a suffix of the input, starts with a non-space, and everything dropped is space |
| `JsString.TrimEnd` | controllers/auth.controller.js:27 | the trailing-space half of `trim`: the result is a prefix of the input, ends with a non-space, and everything dropped is space |
| `JsString.TrimIsEmptyIff` | controllers/auth.controller.js:27 | both directions of "trims to the empty string iff all space" |
| `Hex.Digit` | models/User.js:47 | a nibble becomes a character of `0-9a-f` |
| `Hex.DigitValue` | models/User.js:47 | parses exactly the characters `0-9a-f`, and inverts `Digit` |
| `Hex.Encode` | models/User.js:47 | `toString('hex')` yields two characters per byte, all in `0-9a-f` |
| `Hex.Decode` | models/User.js:47 | a successful decode has half as many bytes as the input has characters |
| `Hex.DecodeEncode` | models/User.js:47 | decoding the hex encoding returns the original bytes |
| `Hex.EncodeInjective` | models/User.js:47 | different random bytes give different reset tokens |
| `UserModel.NewResetToken` | models/User.js:47 | the reset token from 20 random bytes has 40 characters, all lower-case hex, and decodes back to those bytes |
| `UserModel.HookRejects` | models/User.js:21-24 | the hook rejects exactly when the password path is modified but undefined (bcrypt refuses `undefined`) |
| `UserModel.AfterSaveHook` | models/User.js:20-26 | the hook changes only the password field; it rewrites it to its hash when the path was modified, and otherwise leaves the record unchanged (no double hashing) |
| `UserModel.IsPasswordCorrect` | models/User.js:28-30 | bcrypt rejects an undefined argument; the candidate verifies when the stored value is its hash; with a collision-free hash, any other candidate fails |
| `UserModel.Sanitize` | controllers/auth.controller.js:43 | `.select("-password")`: every field of the record except the password |
| `UserModel.SignAccessToken` | models/User.js:32-44 | the instance `generateAccessToken`: the signer applied to exactly the claims `{_id, name, email}` |
| `UserModel.Matches` | controllers/auth.controller.js:202-205 | `{email}` matches an exactly equal (possibly undefined) email; the reset filter needs an equal token and a defined expiry strictly greater than now |
| `UserModel.FindFirst` | controllers/auth.controller.js:202-205 | `findOne` returns the first record in insertion order that matches the filter, or none exactly when no record matches; a reset-token match needs an equal token and an expiry strictly after now |
| `UserModel.UserDocument.Load` | controllers/auth.controller.js:62 | a hydrated document holds the stored record, with nothing modified |
| `UserModel.UserDocument.New` | controllers/auth.controller.js:37-39 | a new document holds the given fields and no reset state; its password path counts as modified even when undefined, so it is valid exactly when a password was supplied |
| `UserModel.UserDocument.SetPassword` | controllers/auth.controller.js:211 | assigning the password stores it and marks the path modified when the value changed |
| `UserModel.UserDocument.GeneratePasswordReset` | models/User.js:46-49 | overwrites any earlier token with the hex of the random bytes; sets the expiry to exactly `now + 3600000` |
| `UserModel.UserDocument.RunSaveHook` | models/User.js:20-26 | fails exactly when `HookRejects`, and then changes nothing; otherwise the document afterwards equals `AfterSaveHook` of its old state and dirty flag |
| `UserModel.UserStore.FindOne` | controllers/auth.controller.js:31 | gives null exactly when `FindFirst` finds nothing; otherwise a fresh, unmodified document of the first match |
| `UserModel.UserStore.FindById` | controllers/auth.controller.js:43 | a fresh, unmodified document of the record with that id |
| `UserModel.UserStore.Create` | controllers/auth.controller.js:37-39 | fails, storing nothing, exactly when the password is undefined; otherwise appends exactly the hooked record with the next id; keeps emails unique |
| `UserModel.UserStore.Save` | controllers/auth.controller.js:214 | runs the hook, writes the document back at its own position and nowhere else, and clears the dirty flag |
| `JsString.SuppliedBlank` | controllers/auth.controller.js:27 | `field?.trim() === ""`: a defined field that trims to the empty string; an undefined one never |
| `JsString.Falsy` | controllers/auth.controller.js:198 | `!v` on a string that may be undefined: undefined or `""` |
| `AuthController.AnyBlank` | controllers/auth.controller.js:27 | `.some(...)` over the fields: some field is `SuppliedBlank` |
| `AuthController.RegisterOutcome` | controllers/auth.controller.js:26-50 | register's decisions in order: 400 on a blank supplied field, 409 on a stored email, 500 when the hook rejects an undefined password, else the hooked record appended and returned without its password |
| `AuthController.LoginOutcome` | controllers/auth.controller.js:59-88 | login's decisions: 404 on an unknown email, 500 when bcrypt refuses an undefined argument, 404 on a wrong password, else the sanitized user and the signed token; the collection is returned unchanged |
| `AuthController.ForgotOutcome` | controllers/auth.controller.js:154-170 | forgot's decisions: 400 on a falsy email, 404 on an unknown one, else the matching user's token and expiry overwritten and the reset URL returned |
| `AuthController.ResetOutcome` | controllers/auth.controller.js:195-216 | reset's decisions: 400 on a falsy token or password, 400 when no user holds a live token, else the matching user's password written through the hook and both reset fields cleared |
| `AuthController.RegisterUser` | controllers/auth.controller.js:24-51 | register leaves the store and returns exactly what `RegisterOutcome` gives for the old contents, and keeps the store invariant |
| `AuthController.GenerateAccessToken` | controllers/auth.controller.js:12-18 | returns the token signed over the user's claims; the re-save leaves the collection identical |
| `AuthController.LoginUser` | controllers/auth.controller.js:57-88 | login follows `LoginOutcome` on the old contents and keeps the store invariant |
| `AuthController.ForgotPassword` | controllers/auth.controller.js:153-170 | forgot-password follows `ForgotOutcome` on the old contents and keeps the store invariant |
| `AuthController.ResetPassword` | controllers/auth.controller.js:194-216 | reset-password follows `ResetOutcome` on the old contents and keeps the store invariant |
| `AuthProperties.FindFirstAppended` | controllers/auth.controller.js:31-39 | a record appended to a collection with no match for a filter becomes that filter's first match |
| `AuthProperties.FindByUniqueEmail` | models/User.js:9-12 | with unique emails, looking a user's email up finds that user |
| `AuthProperties.AnyBlankIff` | controllers/auth.controller.js:27 | the blank test holds exactly when some defined field is all white space |
| `AuthProperties.RegisterBlankIff` | controllers/auth.controller.js:27-29 | register answers 400 exactly when some supplied field of name, email or password is all white space; it then changes nothing |
| `AuthProperties.RegisterDuplicateConflicts` | controllers/auth.controller.js:31-34 | an email already stored gets a 409, and the collection stays as it was |
| `AuthProperties.RegisterWithoutPasswordFails` | models/User.js:21-24 | a registration without a password that passes the blank and duplicate checks fails with 500 and stores nothing |
| `AuthProperties.RegisterAddsOne` | controllers/auth.controller.js:37-50 | a successful register had a password; it appends exactly one record, with the next id, the given name and email, the hashed password and no reset state; earlier records are untouched; the result is that record without its password |
| `AuthProperties.RegisterKeepsInvariant` | models/User.js:9-12 | registration keeps emails unique and ids positional |
| `AuthProperties.LoginKeepsStore` | controllers/auth.controller.js:62-73 | login never changes the collection; its refusals are "User does not exist", "Password is incorrect" or bcrypt's failure |
| `AuthProperties.LoginUnknownEmail` | controllers/auth.controller.js:62-65 | an email no user has gets the 404 "User does not exist", and the store is unchanged |
| `AuthProperties.LoginWrongPassword` | controllers/auth.controller.js:67-70 | a password that does not verify gets the 404 "Password is incorrect", and the store is unchanged |
| `AuthProperties.LoginSucceeds` | controllers/auth.controller.js:72-88 | a successful login returns the user with that email, whose password verified, without its password, and a token signed over exactly `{_id, name, email}` |
| `AuthProperties.LoginWithStoredHash` | models/User.js:28-30 | a user whose stored password is `hash(p)` logs in with `p` and gets its own token |
| `AuthProperties.RegisterThenLogin` | controllers/auth.controller.js:37-88 | registering and then logging in with the same credentials succeeds; it returns the registered user and a token over the new user's claims |
| `AuthProperties.RegisterThenWrongPassword` | controllers/auth.controller.js:67-70 | if a stored hash verifies no password but its own, logging in after registering with any other password is a 404 |
| `AuthProperties.ForgotRefusals` | controllers/auth.controller.js:156-164 | an undefined or empty email gets 400, an unknown email gets 404, and neither changes the collection |
| `AuthProperties.ForgotIssuesToken` | controllers/auth.controller.js:166-170 | a successful forgot-password changes only the matching user's token and expiry; the token is 40 hex characters encoding the random bytes, expiring at `now + 3600000`; the URL is the reset prefix followed by the token |
| `AuthProperties.ForgotKeepsInvariant` | models/User.js:9-12 | forgot-password keeps emails unique and ids positional |
| `AuthProperties.ResetRequiresFields` | controllers/auth.controller.js:198-200 | an undefined or empty token or password gets 400 and changes nothing |
| `AuthProperties.ResetFailsIff` | controllers/auth.controller.js:202-209 | with both fields given, reset fails exactly when no user holds the token with an expiry strictly after now; the failure is always the one "invalid or has expired" error, with the store unchanged |
| `AuthProperties.ExpiredLooksNeverIssued` | controllers/auth.controller.js:202-209 | an expired token gets the same answer as if it had never been issued |
| `AuthProperties.ResetConsumes` | controllers/auth.controller.js:211-214 | a successful reset matched a live token; in one write it stores the new password through the hook and clears both the token and the expiry; nothing else changes |
| `AuthProperties.ResetKeepsEmails` | models/User.js:9-12 | reset changes no email, so emails stay unique and ids positional |
| `AuthProperties.ResetReplayFails` | controllers/auth.controller.js:211-214 | once a token held by one user is consumed, replaying it fails at any time with any password: 400 "invalid or has expired", or 400 "Token and new password are required" for an empty one |
| `AuthProperties.ResetThenLogin` | controllers/auth.controller.js:211-214 | after a reset, the new password logs in, unless it equals the matched user's stored hash string |
| `AuthProperties.ForgotThenReset` | models/User.js:48 | a freshly issued token can be consumed strictly before `now + 3600000`, and is refused from that instant on |
| `AuthProperties.SecondForgotInvalidatesFirst` | models/User.js:46-49 | issuing a second token for the same user makes the first one fail at any time |
| `AuthProperties.SaveHookProperties` | models/User.js:20-26 | a password stored through the hook verifies; a later save without modification leaves the hash as it is |
| `AuthProperties.AccessTokenClaimsOnly` | models/User.js:32-44 | the access token depends on the id, name and email only, not on the password or the reset state |

## Left out

- Mail and OAuth (controllers/auth.controller.js:105-151, 172-190): the Gmail OAuth2 client, `getAccessToken`, `createTransporter` and `sendMail` are network I/O. `ForgotPassword` stops at the reset URL the mail would carry. A send failure is thrown inside a callback, which is not modelled.
- `getProfile` (controllers/auth.controller.js:95-103): it echoes `req.user`, which the JWT middleware sets. The middleware (middleware/jwt.auth.js) is not part of this model.
- bcrypt internals and its random salt: hashing is an arbitrary function value, so the model's hash is deterministic per password. Only the laws named in the lemmas are assumed.
- JWT signing, verification and token expiry: all of these live inside the `sign` function value.
- `RegisterThenWrongPassword` and the third ensures of `IsPasswordCorrect`: both rest on `CompareRejectsOthers`. It is false of bcrypt, which reads only the first 72 UTF-8 bytes of a password: `bcrypt.compare(q, hash(p))` holds for two passwords that share those 72 bytes. So the wrong-password guarantee covers only passwords that differ within their first 72 UTF-8 bytes. The model has no byte-level view of bcrypt's input.
- `AccessTokenClaimsOnly`: `jwt.sign` also stamps the issue time `iat` from the clock and derives `exp` from it, so two logins by the same user get different tokens. The model's signer is one fixed `Claims -> string` function, so the lemma's "same claims, same token" holds only for a single signing instant.
- `crypto.randomBytes`: its 20 bytes are an input.
- HTTP concerns: the response envelope, the cookie options, `asyncHandler` and the log calls. The `try/catch` blocks that only log (controllers/auth.controller.js:52-54, 90-92) are also left out; the model returns the error at each throw point instead.
- The 500 branches after `User.create` and `findById` (controllers/auth.controller.js:40-47) and the catch in `generateAccessToken` (controllers/auth.controller.js:19-21). A `create` that rejects, as it does for an undefined password, is modelled as the error it throws. A `create` that resolves to nothing, and a `findById` that misses an id just read, cannot happen in the sequential in-memory model, so those branches cannot be reached.
- The unused `refreshToken`: it is always undefined.
- `createdAt`/`updatedAt` timestamps and `validateBeforeSave` (the schema has no validators).
- Mongo ObjectIds: an id is the user's position in insertion order.
- Request fields that are not strings: objects such as `{$ne: null}` would act as query operators, and numbers would make `.trim()` throw. Fields are modelled as strings or undefined.
- Concurrency: races between concurrent registrations, and between concurrent reset issuances. `UserStore.Create` therefore requires that the email is free, which the register route has just checked; the store's refusal of a duplicate is not modelled.
- Server and database bootstrap (index.js, App.js, routes/auth.route.js, db/db.js): no logic.
