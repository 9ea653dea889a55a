/**
 * The decision logic of the authentication controller: register, login
 * (with the access-token helper that re-saves the user), forgot-password
 * up to the reset URL, and reset-password.
 *
 * Each route is a method over the mutable `UserStore`; each is proved
 * equal to an outcome function over the store's contents, and the
 * properties of the routes are lemmas about those functions.
 */
module AuthController {
  import opened Wrappers
  import opened JsString
  import Hex
  import opened UserModel

  /** `new ApiError(status, message)` at the point where the source throws it. */
  datatype ApiError = ApiError(status: nat, message: string)

  datatype Result<T> = Ok(value: T) | Err(error: ApiError)

  /** What a route returns together with the collection it leaves behind. */
  datatype Outcome<T> = Outcome(result: Result<T>, users: seq<UserRecord>)

  /** The injected collaborators: bcrypt and the JWT signer (secret and expiry live inside `sign`). */
  datatype Env = Env(crypto: Crypto, sign: Claims -> string)

  /** The body of a successful login: the user without its password, and the access token. */
  datatype LoginResponse = LoginResponse(user: SafeUser, accessToken: string)

  const AllFieldsRequired := ApiError(400, "All fields are required")
  const UserAlreadyExists := ApiError(409, "User already exists")
  const UserDoesNotExist := ApiError(404, "User does not exist")
  const PasswordIncorrect := ApiError(404, "Password is incorrect")
  /** bcrypt rejecting an undefined argument (in `compare`, or in `hash` from the save hook): an internal failure. */
  const IllegalArguments := ApiError(500, "Illegal arguments")
  const EmailRequired := ApiError(400, "Email is required")
  const NoUserWithEmail := ApiError(404, "No user found with that email address")
  const TokenAndPasswordRequired := ApiError(400, "Token and new password are required")
  const InvalidOrExpiredToken := ApiError(400, "Password reset token is invalid or has expired")

  const ResetUrlPrefix := "http://localhost:8000/reset-password/"

  /** `[name, email, password].some((field) => field?.trim() === "")`. */
  predicate AnyBlank(fields: seq<Option<string>>) {
    exists i :: 0 <= i < |fields| && SuppliedBlank(fields[i])
  }

  // ---------------------------------------------------------------- register

  function RegisterOutcome(users: seq<UserRecord>, c: Crypto,
                           name: Option<string>, email: Option<string>, password: Option<string>)
    : Outcome<SafeUser>
  {
    if AnyBlank([name, email, password]) then Outcome(Err(AllFieldsRequired), users)
    else if FindFirst(users, ByEmail(email)).Some? then Outcome(Err(UserAlreadyExists), users)
    else if password.None? then Outcome(Err(IllegalArguments), users)
    else
      var created := AfterSaveHook(UserRecord(|users|, name, email, password, None, None), true, c);
      Outcome(Ok(Sanitize(created)), users + [created])
  }

  method RegisterUser(store: UserStore, env: Env,
                      name: Option<string>, email: Option<string>, password: Option<string>)
    returns (r: Result<SafeUser>)
    requires store.Valid()
    modifies store
    ensures store.Valid()
    ensures Outcome(r, store.users) == RegisterOutcome(old(store.users), env.crypto, name, email, password)
  {
    if AnyBlank([name, email, password]) {
      return Err(AllFieldsRequired);
    }
    var exist := store.FindOne(ByEmail(email));
    if exist != null {
      return Err(UserAlreadyExists);
    }
    var user := store.Create(name, email, password, env.crypto);
    if user == null {
      return Err(IllegalArguments);
    }
    var createUser := store.FindById(user.id);
    r := Ok(Sanitize(createUser.Record()));
  }

  // ------------------------------------------------------------------- login

  function LoginOutcome(users: seq<UserRecord>, env: Env, email: Option<string>, password: Option<string>)
    : Outcome<LoginResponse>
  {
    match FindFirst(users, ByEmail(email))
    case None => Outcome(Err(UserDoesNotExist), users)
    case Some(i) =>
      match IsPasswordCorrect(env.crypto, users[i], password)
      case None => Outcome(Err(IllegalArguments), users)
      case Some(false) => Outcome(Err(PasswordIncorrect), users)
      case Some(true) =>
        Outcome(Ok(LoginResponse(Sanitize(users[i]), SignAccessToken(env.sign, users[i]))), users)
  }

  /** The controller's `generateAccessToken(userId)`: signs the claims, then re-saves the unmodified user. */
  method GenerateAccessToken(store: UserStore, env: Env, userId: Id) returns (accessToken: string)
    requires store.Valid() && userId < |store.users|
    modifies store
    ensures store.Valid() && store.users == old(store.users)
    ensures accessToken == SignAccessToken(env.sign, store.users[userId])
  {
    var user := store.FindById(userId);
    accessToken := SignAccessToken(env.sign, user.Record());
    store.Save(user, env.crypto);
  }

  method LoginUser(store: UserStore, env: Env, email: Option<string>, password: Option<string>)
    returns (r: Result<LoginResponse>)
    requires store.Valid()
    modifies store
    ensures store.Valid()
    ensures Outcome(r, store.users) == LoginOutcome(old(store.users), env, email, password)
  {
    var user := store.FindOne(ByEmail(email));
    if user == null {
      return Err(UserDoesNotExist);
    }
    var isPasswordValid := IsPasswordCorrect(env.crypto, user.Record(), password);
    if isPasswordValid.None? {
      return Err(IllegalArguments);
    }
    if !isPasswordValid.value {
      return Err(PasswordIncorrect);
    }
    var accessToken := GenerateAccessToken(store, env, user.id);
    var loggedInUser := store.FindById(user.id);
    r := Ok(LoginResponse(Sanitize(loggedInUser.Record()), accessToken));
  }

  // --------------------------------------------------------- forgot-password

  function ForgotOutcome(users: seq<UserRecord>, email: Option<string>, random: seq<Hex.byte>, now: nat)
    : Outcome<string>
    requires |random| == ResetTokenBytes
  {
    if Falsy(email) then Outcome(Err(EmailRequired), users)
    else
      match FindFirst(users, ByEmail(email))
      case None => Outcome(Err(NoUserWithEmail), users)
      case Some(i) =>
        var token := NewResetToken(random);
        Outcome(Ok(ResetUrlPrefix + token),
                users[i := users[i].(resetToken := Some(token), resetExpires := Some(now + ResetWindowMs))])
  }

  /** `forgotPassword` up to the reset URL it would mail; `random` stands for `crypto.randomBytes(20)`. */
  method ForgotPassword(store: UserStore, env: Env, email: Option<string>, random: seq<Hex.byte>, now: nat)
    returns (r: Result<string>)
    requires store.Valid() && |random| == ResetTokenBytes
    modifies store
    ensures store.Valid()
    ensures Outcome(r, store.users) == ForgotOutcome(old(store.users), email, random, now)
  {
    if Falsy(email) {
      return Err(EmailRequired);
    }
    var user := store.FindOne(ByEmail(email));
    if user == null {
      return Err(NoUserWithEmail);
    }
    user.GeneratePasswordReset(random, now);
    store.Save(user, env.crypto);
    r := Ok(ResetUrlPrefix + user.resetToken.value);
  }

  // ---------------------------------------------------------- reset-password

  function ResetOutcome(users: seq<UserRecord>, c: Crypto, token: Option<string>, password: Option<string>, now: nat)
    : Outcome<()>
  {
    if Falsy(token) || Falsy(password) then Outcome(Err(TokenAndPasswordRequired), users)
    else
      match FindFirst(users, ByLiveResetToken(token.value, now))
      case None => Outcome(Err(InvalidOrExpiredToken), users)
      case Some(i) =>
        var edited := users[i].(password := password, resetToken := None, resetExpires := None);
        Outcome(Ok(()), users[i := AfterSaveHook(edited, users[i].password != password, c)])
  }

  method ResetPassword(store: UserStore, env: Env, token: Option<string>, password: Option<string>, now: nat)
    returns (r: Result<()>)
    requires store.Valid()
    modifies store
    ensures store.Valid()
    ensures Outcome(r, store.users) == ResetOutcome(old(store.users), env.crypto, token, password, now)
  {
    if Falsy(token) || Falsy(password) {
      return Err(TokenAndPasswordRequired);
    }
    var user := store.FindOne(ByLiveResetToken(token.value, now));
    if user == null {
      return Err(InvalidOrExpiredToken);
    }
    user.SetPassword(password.value);
    user.resetToken := None;
    user.resetExpires := None;
    store.Save(user, env.crypto);
    r := Ok(());
  }
}
