/**
 * Properties of the credential lifecycle, stated over the outcome
 * functions that the controller's routes are proved to follow.
 */
module AuthProperties {
  import opened Wrappers
  import opened JsString
  import Hex
  import opened UserModel
  import opened AuthController

  /** A supplied field made only of white space (the empty string included). */
  predicate AllSpace(field: Option<string>) {
    field.Some? && forall k :: 0 <= k < |field.value| ==> IsJsSpace(field.value[k])
  }

  /** No two users hold the same reset token `t`. */
  ghost predicate HeldByAtMostOne(users: seq<UserRecord>, t: string) {
    forall j, k ::
      (0 <= j < |users| && 0 <= k < |users| && users[j].resetToken == Some(t) && users[k].resetToken == Some(t))
      ==> j == k
  }

  /** Appending a record that matches, to a collection that has none, makes it the first match. */
  lemma FindFirstAppended(users: seq<UserRecord>, f: Filter, u: UserRecord)
    requires FindFirst(users, f).None? && Matches(f, u)
    ensures FindFirst(users + [u], f) == Some(|users|)
  {
    var s := users + [u];
    assert s[|users|] == u;
    assert forall j :: 0 <= j < |users| ==> s[j] == users[j];
  }

  /** With unique emails, the first user with a given email is that user. */
  lemma FindByUniqueEmail(users: seq<UserRecord>, i: nat)
    requires EmailsUnique(users) && i < |users|
    ensures FindFirst(users, ByEmail(users[i].email)) == Some(i)
  {
  }

  // ---------------------------------------------------------------- register

  /** The blank test of register holds exactly when some supplied field is all white space. */
  lemma AnyBlankIff(name: Option<string>, email: Option<string>, password: Option<string>)
    ensures AnyBlank([name, email, password]) <==> AllSpace(name) || AllSpace(email) || AllSpace(password)
  {
    var fields := [name, email, password];
    assert fields[0] == name && fields[1] == email && fields[2] == password;
    if AllSpace(name) { assert SuppliedBlank(fields[0]); }
    if AllSpace(email) { assert SuppliedBlank(fields[1]); }
    if AllSpace(password) { assert SuppliedBlank(fields[2]); }
    if AnyBlank(fields) {
      var i :| 0 <= i < 3 && SuppliedBlank(fields[i]);
      assert AllSpace(fields[i]);
    }
  }

  /** Register answers 400 exactly when some supplied field trims to "": an undefined field never does. */
  lemma RegisterBlankIff(users: seq<UserRecord>, c: Crypto,
                         name: Option<string>, email: Option<string>, password: Option<string>)
    ensures RegisterOutcome(users, c, name, email, password).result == Err(AllFieldsRequired)
            <==> AllSpace(name) || AllSpace(email) || AllSpace(password)
    ensures RegisterOutcome(users, c, name, email, password).result == Err(AllFieldsRequired)
            ==> RegisterOutcome(users, c, name, email, password).users == users
  {
    AnyBlankIff(name, email, password);
  }

  /** A second registration of a stored email is a 409 that leaves the collection as it was. */
  lemma RegisterDuplicateConflicts(users: seq<UserRecord>, c: Crypto,
                                   name: Option<string>, email: Option<string>, password: Option<string>, i: nat)
    requires !AnyBlank([name, email, password])
    requires i < |users| && users[i].email == email
    ensures RegisterOutcome(users, c, name, email, password) == Outcome(Err(UserAlreadyExists), users)
  {
  }

  /**
   * A successful registration had a password; it appends exactly one
   * record, with the given name and email, the hash of that password and no
   * reset state, and returns that record without its password.
   */
  lemma RegisterAddsOne(users: seq<UserRecord>, c: Crypto,
                        name: Option<string>, email: Option<string>, password: Option<string>)
    requires RegisterOutcome(users, c, name, email, password).result.Ok?
    ensures var o := RegisterOutcome(users, c, name, email, password);
            |o.users| == |users| + 1 && o.users[..|users|] == users
            && o.users[|users|].id == |users|
            && o.users[|users|].name == name && o.users[|users|].email == email
            && password.Some? && o.users[|users|].password == Some(c.hash(password.value))
            && o.users[|users|].resetToken.None? && o.users[|users|].resetExpires.None?
            && o.result.value == Sanitize(o.users[|users|])
    ensures forall j :: 0 <= j < |users| ==> users[j].email != email
  {
  }

  /**
   * Without a password, a registration that passes the blank and duplicate
   * checks fails in the save hook (bcrypt refuses `undefined`): 500, nothing stored.
   */
  lemma RegisterWithoutPasswordFails(users: seq<UserRecord>, c: Crypto, name: Option<string>, email: Option<string>)
    requires !AnyBlank([name, email, None])
    requires forall j :: 0 <= j < |users| ==> users[j].email != email
    ensures RegisterOutcome(users, c, name, email, None) == Outcome(Err(IllegalArguments), users)
  {
  }

  /** Registration keeps ids positional and emails unique. */
  lemma RegisterKeepsInvariant(users: seq<UserRecord>, c: Crypto,
                               name: Option<string>, email: Option<string>, password: Option<string>)
    requires IdsArePositions(users) && EmailsUnique(users)
    ensures var after := RegisterOutcome(users, c, name, email, password).users;
            IdsArePositions(after) && EmailsUnique(after)
  {
  }

  // ------------------------------------------------------------------- login

  /**
   * Login never changes the collection, and it refuses only with "User does
   * not exist", "Password is incorrect" (both status 404) or bcrypt's own failure.
   */
  lemma LoginKeepsStore(users: seq<UserRecord>, env: Env, email: Option<string>, password: Option<string>)
    ensures LoginOutcome(users, env, email, password).users == users
    ensures var r := LoginOutcome(users, env, email, password).result;
            r.Err? ==> r.error in {UserDoesNotExist, PasswordIncorrect, IllegalArguments}
  {
  }

  lemma LoginUnknownEmail(users: seq<UserRecord>, env: Env, email: Option<string>, password: Option<string>)
    requires forall j :: 0 <= j < |users| ==> users[j].email != email
    ensures LoginOutcome(users, env, email, password) == Outcome(Err(UserDoesNotExist), users)
  {
  }

  lemma LoginWrongPassword(users: seq<UserRecord>, env: Env, i: nat, password: string)
    requires EmailsUnique(users) && i < |users| && users[i].password.Some?
    requires !env.crypto.compare(password, users[i].password.value)
    ensures LoginOutcome(users, env, users[i].email, Some(password)) == Outcome(Err(PasswordIncorrect), users)
  {
  }

  /** A successful login returns the matching user without its password and a token over exactly its claims. */
  lemma LoginSucceeds(users: seq<UserRecord>, env: Env, email: Option<string>, password: Option<string>)
    requires IdsArePositions(users)
    requires LoginOutcome(users, env, email, password).result.Ok?
    ensures FindFirst(users, ByEmail(email)).Some?
    ensures var i := FindFirst(users, ByEmail(email)).value;
            var resp := LoginOutcome(users, env, email, password).result.value;
            users[i].email == email
            && IsPasswordCorrect(env.crypto, users[i], password) == Some(true)
            && resp.user == Sanitize(users[i])
            && resp.accessToken == env.sign(Claims(i, users[i].name, email))
  {
  }

  /** A user whose stored password is the hash of `p` logs in with `p`. */
  lemma LoginWithStoredHash(users: seq<UserRecord>, env: Env, i: nat, p: string)
    requires CompareAcceptsHash(env.crypto) && EmailsUnique(users)
    requires i < |users| && users[i].password == Some(env.crypto.hash(p))
    ensures LoginOutcome(users, env, users[i].email, Some(p))
            == Outcome(Ok(LoginResponse(Sanitize(users[i]), SignAccessToken(env.sign, users[i]))), users)
  {
  }

  /** Register, then log in with the same credentials: it succeeds and the token carries the new user's claims. */
  lemma RegisterThenLogin(users: seq<UserRecord>, env: Env, name: Option<string>, email: Option<string>, p: string)
    requires CompareAcceptsHash(env.crypto)
    requires RegisterOutcome(users, env.crypto, name, email, Some(p)).result.Ok?
    ensures var reg := RegisterOutcome(users, env.crypto, name, email, Some(p));
            var login := LoginOutcome(reg.users, env, email, Some(p));
            login.users == reg.users
            && login.result.Ok?
            && login.result.value.user == reg.result.value
            && login.result.value.accessToken == env.sign(Claims(|users|, name, email))
  {
    var reg := RegisterOutcome(users, env.crypto, name, email, Some(p));
    FindFirstAppended(users, ByEmail(email), reg.users[|users|]);
    assert reg.users == users + [reg.users[|users|]];
  }

  /** If a stored hash verifies no password but its own, logging in with any other password is refused. */
  lemma RegisterThenWrongPassword(users: seq<UserRecord>, env: Env, name: Option<string>, email: Option<string>,
                                  p: string, q: string)
    requires CompareRejectsOthers(env.crypto) && q != p
    requires RegisterOutcome(users, env.crypto, name, email, Some(p)).result.Ok?
    ensures var reg := RegisterOutcome(users, env.crypto, name, email, Some(p));
            LoginOutcome(reg.users, env, email, Some(q)) == Outcome(Err(PasswordIncorrect), reg.users)
  {
    var reg := RegisterOutcome(users, env.crypto, name, email, Some(p));
    FindFirstAppended(users, ByEmail(email), reg.users[|users|]);
    assert reg.users == users + [reg.users[|users|]];
  }

  // --------------------------------------------------------- forgot-password

  lemma ForgotRefusals(users: seq<UserRecord>, email: Option<string>, random: seq<Hex.byte>, now: nat)
    requires |random| == ResetTokenBytes
    ensures Falsy(email) ==> ForgotOutcome(users, email, random, now) == Outcome(Err(EmailRequired), users)
    ensures !Falsy(email) && (forall j :: 0 <= j < |users| ==> users[j].email != email)
            ==> ForgotOutcome(users, email, random, now) == Outcome(Err(NoUserWithEmail), users)
  {
  }

  /**
   * A successful forgot-password changes only the matching user's reset
   * token and expiry: the token is 40 hex digits encoding the random bytes,
   * it expires one hour from now, and the URL ends with it.
   */
  lemma ForgotIssuesToken(users: seq<UserRecord>, email: Option<string>, random: seq<Hex.byte>, now: nat)
    requires |random| == ResetTokenBytes
    requires ForgotOutcome(users, email, random, now).result.Ok?
    ensures FindFirst(users, ByEmail(email)).Some?
    ensures var i := FindFirst(users, ByEmail(email)).value;
            var o := ForgotOutcome(users, email, random, now);
            var t := NewResetToken(random);
            users[i].email == email
            && |t| == 40 && Hex.Decode(t) == Some(random)
            && o.result.value == ResetUrlPrefix + t
            && |o.users| == |users|
            && (forall j :: 0 <= j < |users| && j != i ==> o.users[j] == users[j])
            && o.users[i] == users[i].(resetToken := Some(t), resetExpires := Some(now + 3600000))
  {
  }

  lemma ForgotKeepsInvariant(users: seq<UserRecord>, email: Option<string>, random: seq<Hex.byte>, now: nat)
    requires |random| == ResetTokenBytes
    requires IdsArePositions(users) && EmailsUnique(users)
    ensures var after := ForgotOutcome(users, email, random, now).users;
            IdsArePositions(after) && EmailsUnique(after)
  {
  }

  // ---------------------------------------------------------- reset-password

  lemma ResetRequiresFields(users: seq<UserRecord>, c: Crypto, token: Option<string>, password: Option<string>, now: nat)
    requires Falsy(token) || Falsy(password)
    ensures ResetOutcome(users, c, token, password, now) == Outcome(Err(TokenAndPasswordRequired), users)
  {
  }

  /** With both fields given, reset fails exactly when no user holds the token with an expiry strictly after now. */
  lemma ResetFailsIff(users: seq<UserRecord>, c: Crypto, token: string, password: string, now: nat)
    requires token != "" && password != ""
    ensures ResetOutcome(users, c, Some(token), Some(password), now).result.Err?
            <==> forall j :: 0 <= j < |users| ==>
                   !(users[j].resetToken == Some(token) && users[j].resetExpires.Some?
                     && users[j].resetExpires.value > now)
    ensures ResetOutcome(users, c, Some(token), Some(password), now).result.Err?
            ==> ResetOutcome(users, c, Some(token), Some(password), now)
                == Outcome(Err(InvalidOrExpiredToken), users)
  {
  }

  /**
   * An expired token and a token that was never issued get the same answer:
   * the caller cannot tell whether user `i` ever held `token`.
   */
  lemma ExpiredLooksNeverIssued(users: seq<UserRecord>, c: Crypto, token: Option<string>, password: Option<string>,
                                now: nat, i: nat)
    requires i < |users| && users[i].resetToken == token
    requires users[i].resetExpires.Some? && users[i].resetExpires.value <= now
    ensures var never := users[i := users[i].(resetToken := None, resetExpires := None)];
            ResetOutcome(users, c, token, password, now).result
            == ResetOutcome(never, c, token, password, now).result
  {
    var never := users[i := users[i].(resetToken := None, resetExpires := None)];
    if !Falsy(token) && !Falsy(password) {
      var f := ByLiveResetToken(token.value, now);
      assert forall j :: 0 <= j < |users| ==> (Matches(f, users[j]) <==> Matches(f, never[j]));
      var a := FindFirst(users, f);
      var b := FindFirst(never, f);
      if a.None? || b.None? {
        assert a.None? && b.None?;
      }
    }
  }

  /**
   * A successful reset writes the new password through the save hook and
   * clears both reset fields in the same write; nothing else changes.
   */
  lemma ResetConsumes(users: seq<UserRecord>, c: Crypto, token: Option<string>, password: Option<string>, now: nat)
    requires ResetOutcome(users, c, token, password, now).result.Ok?
    ensures token.Some? && password.Some?
    ensures FindFirst(users, ByLiveResetToken(token.value, now)).Some?
    ensures var i := FindFirst(users, ByLiveResetToken(token.value, now)).value;
            var o := ResetOutcome(users, c, token, password, now);
            users[i].resetToken == token && users[i].resetExpires.value > now
            && |o.users| == |users|
            && (forall j :: 0 <= j < |users| && j != i ==> o.users[j] == users[j])
            && o.users[i].id == users[i].id && o.users[i].name == users[i].name
            && o.users[i].email == users[i].email
            && o.users[i].resetToken.None? && o.users[i].resetExpires.None?
            && o.users[i].password
               == (if users[i].password == password then password else Some(c.hash(password.value)))
  {
  }

  /** Reset changes no email, so it keeps ids positional and emails unique. */
  lemma ResetKeepsEmails(users: seq<UserRecord>, c: Crypto, token: Option<string>, password: Option<string>, now: nat)
    ensures var after := ResetOutcome(users, c, token, password, now).users;
            |after| == |users| && forall j :: 0 <= j < |users| ==> after[j].email == users[j].email
    ensures var after := ResetOutcome(users, c, token, password, now).users;
            (IdsArePositions(users) ==> IdsArePositions(after)) && (EmailsUnique(users) ==> EmailsUnique(after))
  {
  }

  /**
   * A consumed token cannot be replayed, at any later time and with any password:
   * a non-empty one is told the token is invalid, an empty one that both fields are required.
   */
  lemma ResetReplayFails(users: seq<UserRecord>, c: Crypto, token: string, p: string, now: nat,
                         p2: string, now2: nat)
    requires HeldByAtMostOne(users, token)
    requires ResetOutcome(users, c, Some(token), Some(p), now).result.Ok?
    ensures var after := ResetOutcome(users, c, Some(token), Some(p), now).users;
            ResetOutcome(after, c, Some(token), Some(p2), now2)
            == Outcome(Err(if p2 == "" then TokenAndPasswordRequired else InvalidOrExpiredToken), after)
  {
  }

  /** After a reset, the new password logs in (unless it equals the stored hash string, which Mongoose does not mark modified). */
  lemma ResetThenLogin(users: seq<UserRecord>, env: Env, token: string, p: string, now: nat, i: nat)
    requires CompareAcceptsHash(env.crypto) && EmailsUnique(users)
    requires ResetOutcome(users, env.crypto, Some(token), Some(p), now).result.Ok?
    requires FindFirst(users, ByLiveResetToken(token, now)) == Some(i)
    requires users[i].password != Some(p)
    ensures var after := ResetOutcome(users, env.crypto, Some(token), Some(p), now).users;
            LoginOutcome(after, env, users[i].email, Some(p)).result.Ok?
  {
    ResetConsumes(users, env.crypto, Some(token), Some(p), now);
    ResetKeepsEmails(users, env.crypto, Some(token), Some(p), now);
    var after := ResetOutcome(users, env.crypto, Some(token), Some(p), now).users;
    LoginWithStoredHash(after, env, i, p);
  }

  // ------------------------------------------------------- the reset cycle

  /**
   * Issue a token, then consume it: strictly before the hour is up it
   * succeeds; from the moment `now + 3600000` on it is refused.
   */
  lemma ForgotThenReset(users: seq<UserRecord>, c: Crypto, email: Option<string>, random: seq<Hex.byte>,
                        now: nat, p: string, later: nat)
    requires |random| == ResetTokenBytes && p != ""
    requires ForgotOutcome(users, email, random, now).result.Ok?
    requires forall j :: 0 <= j < |users| ==> users[j].resetToken != Some(NewResetToken(random))
    ensures var mid := ForgotOutcome(users, email, random, now).users;
            var r := ResetOutcome(mid, c, Some(NewResetToken(random)), Some(p), later).result;
            (later < now + ResetWindowMs ==> r.Ok?)
            && (later >= now + ResetWindowMs ==> r == Err(InvalidOrExpiredToken))
  {
    var t := NewResetToken(random);
    var i := FindFirst(users, ByEmail(email)).value;
    var mid := ForgotOutcome(users, email, random, now).users;
    assert forall j :: 0 <= j < |mid| && j != i ==> mid[j].resetToken != Some(t);
    assert mid[i].resetToken == Some(t);
    ResetFailsIff(mid, c, t, p, later);
  }

  /** Issuing a second token overwrites the first: the first is then refused at any time. */
  lemma SecondForgotInvalidatesFirst(users: seq<UserRecord>, c: Crypto, email: Option<string>,
                                     r1: seq<Hex.byte>, now1: nat, r2: seq<Hex.byte>, now2: nat,
                                     p: string, later: nat)
    requires |r1| == ResetTokenBytes && |r2| == ResetTokenBytes && r1 != r2 && p != ""
    requires EmailsUnique(users)
    requires ForgotOutcome(users, email, r1, now1).result.Ok?
    requires forall j :: 0 <= j < |users| ==> users[j].resetToken != Some(NewResetToken(r1))
    ensures var mid := ForgotOutcome(users, email, r1, now1).users;
            var last := ForgotOutcome(mid, email, r2, now2).users;
            ResetOutcome(last, c, Some(NewResetToken(r1)), Some(p), later) == Outcome(Err(InvalidOrExpiredToken), last)
  {
  }

  // ------------------------------------------------------------ the model

  /** A password stored through the save hook verifies; a save that did not touch it leaves the hash alone. */
  lemma SaveHookProperties(c: Crypto, u: UserRecord, p: string)
    requires CompareAcceptsHash(c)
    ensures var stored := AfterSaveHook(u.(password := Some(p)), true, c);
            IsPasswordCorrect(c, stored, Some(p)) == Some(true)
            && AfterSaveHook(stored, false, c) == stored
  {
  }

  /** The access token depends on the id, name and email only: not on the password or the reset state. */
  lemma AccessTokenClaimsOnly(sign: Claims -> string, u: UserRecord, v: UserRecord)
    requires u.id == v.id && u.name == v.name && u.email == v.email
    ensures SignAccessToken(sign, u) == SignAccessToken(sign, v)
  {
  }
}
