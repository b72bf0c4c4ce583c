/** The User entity of the app package. Password hashing (bcrypt) is an
    abstract pair of functions: `generate` may fail, `compare` reports an
    error on a mismatch. */
module AppUser {
  import opened Errors

  /** bcrypt.GenerateFromPassword, abstracted. */
  type Generate = string -> Result<string>

  /** bcrypt.CompareHashAndPassword, abstracted: None means "matches". */
  type Compare = (string, string) -> Option<Error>

  /** UserFilter: each present field is an equality predicate. */
  datatype UserFilter = UserFilter(id: Option<nat>, email: Option<string>, limit: nat, offset: nat)

  /** UserPatch: a present field replaces the user's value. */
  datatype UserPatch = UserPatch(email: Option<string>, passwordHash: Option<string>)

  /** A generator and a comparison that agree: every hash `generate`
      produces for a password is accepted by `compare` for that password. */
  ghost predicate Agree(generate: Generate, compare: Compare)
  {
    forall p :: generate(p).Ok? ==> compare(generate(p).value, p).None?
  }

  /** VerifyPassword's test on a stored hash: the comparison reports no error. */
  predicate PasswordMatches(hash: string, password: string, compare: Compare)
  {
    compare(hash, password).None?
  }

  class User {
    var id: int
    var email: string
    var token: string
    var passwordHash: string
    var createdAt: int
    var updatedAt: int

    /** A `&User{...}` literal with every field given. */
    constructor (id: int, email: string, token: string, passwordHash: string, createdAt: int, updatedAt: int)
      ensures this.id == id && this.email == email && this.token == token
      ensures this.passwordHash == passwordHash && this.createdAt == createdAt && this.updatedAt == updatedAt
    {
      this.id, this.email, this.token := id, email, token;
      this.passwordHash, this.createdAt, this.updatedAt := passwordHash, createdAt, updatedAt;
    }

    /** User(): a new user carrying only ID and Email. Being a new address,
        it is never the anonymous user, even when made from it. */
    method Project() returns (r: User)
      ensures fresh(r)
      ensures r.id == id && r.email == email
      ensures r.token == "" && r.passwordHash == "" && r.createdAt == 0 && r.updatedAt == 0
    {
      r := new User(id, email, "", "", 0, 0);
    }

    /** SetPassword: on a hashing error return it and keep the old hash;
        otherwise store the new hash. No other field changes. */
    method SetPassword(password: string, generate: Generate) returns (err: Option<Error>)
      modifies this`passwordHash
      ensures generate(password).Err? ==> err == Some(generate(password).error) && passwordHash == old(passwordHash)
      ensures generate(password).Ok? ==> err == None && passwordHash == generate(password).value
    {
      var hashed := generate(password);
      if hashed.Err? {
        return Some(hashed.error);
      }
      passwordHash := hashed.value;
      err := None;
    }

    /** VerifyPassword (value receiver): the stored hash matches `password`.
        Whenever the stored hash is one an agreeing generator produced for
        `password`, it verifies. */
    predicate VerifyPassword(password: string, compare: Compare): (ok: bool)
      reads this
      ensures forall generate: Generate :: Agree(generate, compare) && generate(password) == Ok(passwordHash) ==> ok
    {
      PasswordMatches(passwordHash, password, compare)
    }

    /** IsAnonymous: this is the address of the package variable
        AnonymousUser (passed in as `anonymousUser`). Being anonymous implies
        having the sentinel's fields; the converse fails (see AnonymityIsIdentity). */
    predicate IsAnonymous(anonymousUser: User): (anonymous: bool)
      reads this, anonymousUser
      ensures anonymous ==> id == anonymousUser.id && email == anonymousUser.email && token == anonymousUser.token
      ensures anonymous ==> passwordHash == anonymousUser.passwordHash
      ensures anonymous ==> createdAt == anonymousUser.createdAt && updatedAt == anonymousUser.updatedAt
    {
      this == anonymousUser
    }
  }

  /** SetPassword followed by VerifyPassword: with a generator and a
      comparison that agree, a password that was set successfully verifies,
      and nothing but the hash changed. */
  method SetThenVerify(u: User, password: string, generate: Generate, compare: Compare)
    returns (err: Option<Error>, verified: bool)
    requires Agree(generate, compare)
    modifies u`passwordHash
    ensures err.None? <==> generate(password).Ok?
    ensures err.None? ==> verified && u.VerifyPassword(password, compare)
    ensures err.Some? ==> u.passwordHash == old(u.passwordHash)
    ensures u.id == old(u.id) && u.email == old(u.email) && u.token == old(u.token)
    ensures u.createdAt == old(u.createdAt) && u.updatedAt == old(u.updatedAt)
  {
    err := u.SetPassword(password, generate);
    verified := u.VerifyPassword(password, compare);
  }

  /** Anonymity is object identity: the sentinel itself is anonymous, while
      a separate user holding exactly the sentinel's fields is not, nor is
      the projection User() makes of the sentinel. */
  method AnonymityIsIdentity(anonymousUser: User)
    returns (selfAnonymous: bool, sameFields: bool, copyAnonymous: bool, projectionAnonymous: bool)
    ensures selfAnonymous && sameFields && !copyAnonymous && !projectionAnonymous
  {
    var a := anonymousUser;
    var copy := new User(a.id, a.email, a.token, a.passwordHash, a.createdAt, a.updatedAt);
    var projection := a.Project();
    selfAnonymous := a.IsAnonymous(a);
    sameFields := copy.id == a.id && copy.email == a.email && copy.token == a.token
      && copy.passwordHash == a.passwordHash && copy.createdAt == a.createdAt && copy.updatedAt == a.updatedAt;
    copyAnonymous := copy.IsAnonymous(a);
    projectionAnonymous := projection.IsAnonymous(a);
  }
}
