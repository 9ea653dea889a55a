/**
 * The Mongoose `User` model: the schema's fields, the `pre("save")` hook,
 * the instance methods `isPasswordCorrect`, `generateAccessToken` and
 * `generatePasswordReset`, and the collection itself with its unique index
 * on `email`.
 *
 * bcrypt and the JWT signer are foreign code; they are passed in as
 * function values and nothing is assumed about them except, where a lemma
 * says so, that `compare` accepts what `hash` produced.
 */
module UserModel {
  import opened Wrappers
  import Hex

  /** A document id. The model issues them in insertion order: the n-th user created has id n. */
  type Id = nat

  /** One stored user: every schema field may be undefined (`None`); `resetExpires` is in ms since the epoch. */
  datatype UserRecord = UserRecord(
    id: Id,
    name: Option<string>,
    email: Option<string>,
    password: Option<string>,
    resetToken: Option<string>,
    resetExpires: Option<nat>)

  /** A user read back with `.select("-password")`: every field but the password. */
  datatype SafeUser = SafeUser(
    id: Id,
    name: Option<string>,
    email: Option<string>,
    resetToken: Option<string>,
    resetExpires: Option<nat>)

  function Sanitize(u: UserRecord): SafeUser {
    SafeUser(u.id, u.name, u.email, u.resetToken, u.resetExpires)
  }

  /** bcrypt as the model sees it: `hash(p)` with the work factor fixed, and `compare(p, digest)`. */
  datatype Crypto = Crypto(hash: string -> string, compare: (string, string) -> bool)

  /** The one law bcrypt is relied on for: a password verifies against its own hash. */
  ghost predicate CompareAcceptsHash(c: Crypto) {
    forall p :: c.compare(p, c.hash(p))
  }

  /**
   * Used only to show that a wrong password is refused: a stored hash verifies no
   * password but its own. bcrypt reads only the first 72 bytes of a password, so this
   * is an idealisation for passwords that differ within those bytes.
   */
  ghost predicate CompareRejectsOthers(c: Crypto) {
    forall p, q :: c.compare(p, c.hash(q)) ==> p == q
  }

  /**
   * The `pre("save")` hook rejects, and the save with it, when the
   * `password` path is modified but undefined: `bcrypt.hash(undefined, 10)`
   * refuses its arguments.
   */
  predicate HookRejects(u: UserRecord, passwordModified: bool) {
    passwordModified && u.password.None?
  }

  /**
   * The `pre("save")` hook when it does not reject: when the `password`
   * path was modified it is replaced by its hash, otherwise the record is
   * written as it is.
   */
  function AfterSaveHook(u: UserRecord, passwordModified: bool, c: Crypto): (r: UserRecord)
    requires passwordModified ==> u.password.Some?
    ensures r == u.(password := r.password)
    ensures !passwordModified ==> r == u
    ensures passwordModified ==> r.password == Some(c.hash(u.password.value))
  {
    if passwordModified then u.(password := Some(c.hash(u.password.value))) else u
  }

  /**
   * `isPasswordCorrect(candidate)`, that is `bcrypt.compare(candidate, this.password)`.
   * `None` is bcrypt rejecting an undefined argument ("Illegal arguments").
   */
  function IsPasswordCorrect(c: Crypto, u: UserRecord, candidate: Option<string>): (r: Option<bool>)
    ensures r.None? <==> candidate.None? || u.password.None?
    ensures CompareAcceptsHash(c) && candidate.Some? && u.password == Some(c.hash(candidate.value))
            ==> r == Some(true)
    ensures forall q ::
              (CompareRejectsOthers(c) && candidate.Some? && u.password == Some(c.hash(q)) && q != candidate.value)
              ==> r == Some(false)
  {
    if candidate.None? || u.password.None? then None
    else Some(c.compare(candidate.value, u.password.value))
  }

  /** The claims `generateAccessToken` signs: `{_id, name, email}` and nothing else. */
  datatype Claims = Claims(id: Id, name: Option<string>, email: Option<string>)

  /** `generateAccessToken()`: the signer applied to the record's claims (secret and expiry live in `sign`). */
  function SignAccessToken(sign: Claims -> string, u: UserRecord): string {
    sign(Claims(u.id, u.name, u.email))
  }

  /** Number of random bytes in a reset token, and its lifetime in milliseconds. */
  const ResetTokenBytes: nat := 20
  const ResetWindowMs: nat := 3600000

  /** `crypto.randomBytes(20).toString('hex')`, the random bytes being an input. */
  function NewResetToken(random: seq<Hex.byte>): (token: string)
    requires |random| == ResetTokenBytes
    ensures |token| == 40
    ensures forall i :: 0 <= i < |token| ==> Hex.IsHexDigit(token[i])
    ensures Hex.Decode(token) == Some(random)
  {
    Hex.DecodeEncode(random);
    Hex.Encode(random)
  }

  /**
   * A Mongoose document loaded from, or about to be inserted into, the
   * collection. `passwordModified` is Mongoose's dirty flag for the
   * `password` path, the one thing the save hook looks at.
   */
  class UserDocument {
    const id: Id
    const name: Option<string>
    const email: Option<string>
    var password: Option<string>
    var resetToken: Option<string>
    var resetExpires: Option<nat>
    var passwordModified: bool

    /** A modified password path always holds a value. */
    ghost predicate Valid()
      reads this
    {
      passwordModified ==> password.Some?
    }

    function Record(): UserRecord
      reads this
    {
      UserRecord(id, name, email, password, resetToken, resetExpires)
    }

    /** Hydrates a stored record: nothing is modified yet. */
    constructor Load(u: UserRecord)
      ensures Valid() && Record() == u && !passwordModified
    {
      id, name, email := u.id, u.name, u.email;
      password, resetToken, resetExpires := u.password, u.resetToken, u.resetExpires;
      passwordModified := false;
    }

    /**
     * `new User({name, email, password})`: on a new document every path it
     * was given counts as modified, `password` included even when undefined.
     */
    constructor New(id: Id, name: Option<string>, email: Option<string>, password: Option<string>)
      ensures Record() == UserRecord(id, name, email, password, None, None)
      ensures passwordModified
      ensures Valid() <==> password.Some?
    {
      this.id, this.name, this.email := id, name, email;
      this.password, resetToken, resetExpires := password, None, None;
      passwordModified := true;
    }

    /** `user.password = p`: Mongoose marks the path modified only when the value changes. */
    method SetPassword(p: string)
      requires Valid()
      modifies this`password, this`passwordModified
      ensures Valid() && password == Some(p)
      ensures passwordModified == (old(passwordModified) || old(password) != Some(p))
    {
      passwordModified := passwordModified || password != Some(p);
      password := Some(p);
    }

    /** `generatePasswordReset()`: overwrites any earlier token; the expiry is one hour from `now`. */
    method GeneratePasswordReset(random: seq<Hex.byte>, now: nat)
      requires |random| == ResetTokenBytes
      modifies this`resetToken, this`resetExpires
      ensures resetToken == Some(NewResetToken(random))
      ensures resetExpires == Some(now + ResetWindowMs)
    {
      resetToken := Some(NewResetToken(random));
      resetExpires := Some(now + ResetWindowMs);
    }

    /**
     * The `pre("save")` hook: hashes the password only if it was modified;
     * `ok` is false when bcrypt rejects an undefined password, and then
     * nothing changes.
     */
    method RunSaveHook(c: Crypto) returns (ok: bool)
      modifies this`password
      ensures ok <==> !HookRejects(old(Record()), passwordModified)
      ensures ok ==> Valid() && Record() == AfterSaveHook(old(Record()), passwordModified, c)
      ensures !ok ==> Record() == old(Record())
    {
      if passwordModified && password.None? {
        return false;
      }
      if passwordModified {
        password := Some(c.hash(password.value));
      }
      ok := true;
    }
  }

  /** The unique index on `email`: no two stored users share one (an undefined email counts as a value). */
  ghost predicate EmailsUnique(users: seq<UserRecord>) {
    forall i, j :: 0 <= i < j < |users| ==> users[i].email != users[j].email
  }

  /** Ids are issued in insertion order and nothing is ever deleted. */
  ghost predicate IdsArePositions(users: seq<UserRecord>) {
    forall i :: 0 <= i < |users| ==> users[i].id == i
  }

  /** The two query documents the controllers pass to `findOne`. */
  datatype Filter =
    | ByEmail(email: Option<string>)
    | ByLiveResetToken(token: string, now: nat)

  /** `{email}` is an exact match; `{resetPasswordToken: token, resetPasswordExpires: {$gt: now}}` is strict. */
  predicate Matches(f: Filter, u: UserRecord) {
    match f
    case ByEmail(e) => u.email == e
    case ByLiveResetToken(t, now) =>
      u.resetToken == Some(t) && u.resetExpires.Some? && u.resetExpires.value > now
  }

  /** `findOne(filter)`: the position of the first match in insertion order, if any. */
  function FindFirst(users: seq<UserRecord>, f: Filter): (r: Option<nat>)
    ensures r.Some? ==> r.value < |users| && Matches(f, users[r.value])
    ensures r.Some? ==> forall j :: 0 <= j < r.value ==> !Matches(f, users[j])
    ensures r.None? <==> forall j :: 0 <= j < |users| ==> !Matches(f, users[j])
  {
    if users == [] then None
    else if Matches(f, users[0]) then Some(0)
    else
      match FindFirst(users[1..], f)
      case None => None
      case Some(k) => Some(k + 1)
  }

  /** The `users` collection. */
  class UserStore {
    var users: seq<UserRecord>

    ghost predicate Valid()
      reads this
    {
      IdsArePositions(users) && EmailsUnique(users)
    }

    constructor ()
      ensures Valid() && users == []
    {
      users := [];
    }

    /** `User.findOne(filter)`: a fresh document for the first match, or null. */
    method FindOne(f: Filter) returns (doc: UserDocument?)
      ensures doc == null <==> FindFirst(users, f).None?
      ensures doc != null ==> fresh(doc) && doc.Valid() && !doc.passwordModified
                              && doc.Record() == users[FindFirst(users, f).value]
    {
      var found := FindFirst(users, f);
      if found.None? {
        doc := null;
      } else {
        doc := new UserDocument.Load(users[found.value]);
      }
    }

    /** `User.findById(id)` for an id the caller has just read from the collection. */
    method FindById(id: Id) returns (doc: UserDocument)
      requires id < |users|
      ensures fresh(doc) && doc.Valid() && !doc.passwordModified && doc.Record() == users[id]
    {
      doc := new UserDocument.Load(users[id]);
    }

    /**
     * `User.create({name, email, password})`: builds the document and runs
     * the save hook. With a password it appends the hooked record; without
     * one the hook rejects, `create` fails (null here) and nothing is stored.
     * The email must be free: the unique index refuses a duplicate, and the
     * only caller has checked for one.
     */
    method Create(name: Option<string>, email: Option<string>, password: Option<string>, c: Crypto)
      returns (doc: UserDocument?)
      requires Valid()
      requires FindFirst(users, ByEmail(email)).None?
      modifies this
      ensures Valid()
      ensures doc == null <==> password.None?
      ensures doc == null ==> users == old(users)
      ensures doc != null ==> fresh(doc) && doc.id == old(|users|)
      ensures doc != null ==>
                users == old(users)
                         + [AfterSaveHook(UserRecord(old(|users|), name, email, password, None, None), true, c)]
    {
      var created := new UserDocument.New(|users|, name, email, password);
      var ok := created.RunSaveHook(c);
      if !ok {
        return null;
      }
      users := users + [created.Record()];
      created.passwordModified := false;
      doc := created;
    }

    /**
     * `doc.save()` on a document read from this collection: runs the save
     * hook, then writes the whole document back in place.
     */
    method Save(doc: UserDocument, c: Crypto)
      requires Valid() && doc.Valid()
      requires doc.id < |users| && doc.email == users[doc.id].email
      modifies this, doc
      ensures Valid() && doc.Valid() && !doc.passwordModified
      ensures doc.Record() == AfterSaveHook(old(doc.Record()), old(doc.passwordModified), c)
      ensures users == old(users)[doc.id := doc.Record()]
    {
      var ok := doc.RunSaveHook(c);
      users := users[doc.id := doc.Record()];
      doc.passwordModified := false;
    }
  }
}
