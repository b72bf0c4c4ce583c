/** The user half of the postgres package: the filter translator, the
    statements on an open transaction, and the UserService wrappers. */
module PostgresUser {
  import opened Errors
  import opened Patch
  import opened Sql
  import opened Db
  import opened AppUser

  // ---- findUsers: filter translation and what the query returns ----

  /** The predicates findUsers translates, in order: ID, then Email. */
  function UserConditions(f: UserFilter): Conditions
  {
    match (f.id, f.email)
    case (Some(id), Some(email)) => [("id", IntArg(id)), ("email", TextArg(email))]
    case (Some(id), None) => [("id", IntArg(id))]
    case (None, Some(email)) => [("email", TextArg(email))]
    case (None, None) => []
  }

  /** What a filter asks of a row. */
  predicate SelectsUser(f: UserFilter, row: UserRow)
  {
    && (f.id.Some? ==> row.id == f.id.value)
    && (f.email.Some? ==> row.email == f.email.value)
  }

  /** The rows `SELECT * from users WHERE ... ORDER BY id ASC LIMIT ...
      OFFSET ...` returns for the translated filter. */
  function UserQuery(t: Tables, f: UserFilter): seq<UserRow>
  {
    var conds := UserConditions(f);
    Page(Matching(t.users, UserColumn, Numbered(conds), Values(conds)), f.limit, f.offset)
  }

  /** findOneUser's outcome on a successful query: ErrNotFound for no rows,
      the first row otherwise. */
  function UserLookup(t: Tables, f: UserFilter): Result<UserRow>
  {
    var rows := UserQuery(t, f);
    if rows == [] then Err(App(NotFound)) else Ok(rows[0])
  }

  /** The filters findUserByID and UserByEmail build. */
  function UserById(id: nat): UserFilter
  {
    UserFilter(Some(id), None, 0, 0)
  }

  function UserByEmailFilter(email: string): UserFilter
  {
    UserFilter(None, Some(email), 0, 0)
  }

  /** The where-list and argument list of findUsers, grown by appends while
      a counter numbers the placeholders. */
  method TranslateUserFilter(filter: UserFilter) returns (where: seq<Fragment>, args: seq<Arg>)
    ensures where == Numbered(UserConditions(filter)) && args == Values(UserConditions(filter))
    ensures |where| == |args| <= 2
    ensures where == [] <==> filter.id.None? && filter.email.None?
    ensures forall k :: 0 <= k < |where| ==> where[k].position == k + 1
    ensures forall k :: 0 <= k < |where| ==> where[k].column == "id" || where[k].column == "email"
    ensures filter.id.Some? ==> where[0] == Eq("id", 1) && args[0] == IntArg(filter.id.value)
    ensures filter.email.Some? ==> where[|where| - 1] == Eq("email", |where|) && args[|args| - 1] == TextArg(filter.email.value)
  {
    where, args := [], [];
    var argPosition := 0;
    if filter.id.Some? {
      argPosition := argPosition + 1;
      where, args := where + [Eq("id", argPosition)], args + [IntArg(filter.id.value)];
    }
    if filter.email.Some? {
      argPosition := argPosition + 1;
      where, args := where + [Eq("email", argPosition)], args + [TextArg(filter.email.value)];
    }
  }

  /** The translated WHERE list holds of a row exactly when the row has the
      filter's ID and Email. */
  lemma UserFilterMeaning(f: UserFilter, row: UserRow)
    ensures Satisfies(row, UserColumn, Numbered(UserConditions(f)), Values(UserConditions(f))) <==> SelectsUser(f, row)
  {
    NumberedMeaning(row, UserColumn, UserConditions(f));
    match (f.id, f.email)
    case (Some(id), Some(email)) => AllHoldTwo(row, UserColumn, ("id", IntArg(id)), ("email", TextArg(email)));
    case (Some(id), None) => AllHoldOne(row, UserColumn, ("id", IntArg(id)));
    case (None, Some(email)) => AllHoldOne(row, UserColumn, ("email", TextArg(email)));
    case (None, None) =>
  }

  /** Without LIMIT and OFFSET the query returns exactly the rows the filter
      selects. */
  lemma UnpagedUserQuery(t: Tables, f: UserFilter, row: UserRow)
    requires f.limit == 0 && f.offset == 0
    ensures row in UserQuery(t, f) <==> row in t.users && SelectsUser(f, row)
  {
    var conds := UserConditions(f);
    UserFilterMeaning(f, row);
    if row in t.users && SelectsUser(f, row) {
      KeepComplete(t.users, (r: UserRow) => Satisfies(r, UserColumn, Numbered(conds), Values(conds)), row);
    }
  }

  /** Every returned row is a selected table row, in ascending id order,
      whatever the page. */
  lemma UserQuerySound(t: Tables, f: UserFilter)
    requires WellFormed(t)
    ensures forall r :: r in UserQuery(t, f) ==> r in t.users && SelectsUser(f, r)
    ensures Pairwise(UserQuery(t, f), UserOrder)
  {
    var conds := UserConditions(f);
    var p := (r: UserRow) => Satisfies(r, UserColumn, Numbered(conds), Values(conds));
    KeepPairwise(t.users, p, UserOrder);
    PagePairwise(Keep(t.users, p), f.limit, f.offset, UserOrder);
    forall r | r in UserQuery(t, f) ensures SelectsUser(f, r) {
      UserFilterMeaning(f, r);
    }
  }

  /** On the first page, findOneUser's row is the selected row with the
      smallest id; it fails with ErrNotFound only when no row is selected. */
  lemma FirstUserIsSmallest(t: Tables, f: UserFilter)
    requires WellFormed(t) && f.offset == 0
    ensures UserLookup(t, f).Err? <==> forall r :: r in t.users ==> !SelectsUser(f, r)
    ensures UserLookup(t, f).Err? ==> UserLookup(t, f).error == App(NotFound)
    ensures UserLookup(t, f).Ok? ==>
      && UserLookup(t, f).value in t.users
      && SelectsUser(f, UserLookup(t, f).value)
      && forall r :: r in t.users && SelectsUser(f, r) ==> UserLookup(t, f).value.id <= r.id
  {
    var conds := UserConditions(f);
    var p := (r: UserRow) => Satisfies(r, UserColumn, Numbered(conds), Values(conds));
    var m := Keep(t.users, p);
    UserQuerySound(t, f);
    KeepPairwise(t.users, p, UserOrder);
    forall r | r in t.users && SelectsUser(f, r)
      ensures m != [] && m[0].id <= r.id
    {
      UserFilterMeaning(f, r);
      KeepComplete(t.users, p, r);
      if r != m[0] {
        HeadFirst(m, UserOrder, r);
      }
    }
    if m != [] {
      PageHead(m, f.limit);
    }
  }

  /** Looking a user up by id finds the one row with that id, or fails with
      ErrNotFound when there is none. */
  lemma LookupUserById(t: Tables, id: nat)
    requires WellFormed(t)
    ensures UserLookup(t, UserById(id)).Ok? <==> HasUser(t, id)
    ensures UserLookup(t, UserById(id)).Err? ==> UserLookup(t, UserById(id)).error == App(NotFound)
    ensures forall r :: r in t.users && r.id == id ==> UserLookup(t, UserById(id)) == Ok(r)
  {
    FirstUserIsSmallest(t, UserById(id));
    var res := UserLookup(t, UserById(id));
    forall r | r in t.users && r.id == id ensures res == Ok(r) {
      assert SelectsUser(UserById(id), r);
      UserIdsUnique(t, res.value, r);
    }
  }

  /** Emails are unique, so looking a user up by email finds the one row
      with that email, or fails with ErrNotFound when there is none. */
  lemma LookupUserByEmail(t: Tables, email: string)
    requires WellFormed(t)
    ensures UserLookup(t, UserByEmailFilter(email)).Ok? <==> EmailTaken(t, email)
    ensures UserLookup(t, UserByEmailFilter(email)).Err? ==> UserLookup(t, UserByEmailFilter(email)).error == App(NotFound)
    ensures forall r :: r in t.users && r.email == email ==> UserLookup(t, UserByEmailFilter(email)) == Ok(r)
  {
    FirstUserIsSmallest(t, UserByEmailFilter(email));
    var res := UserLookup(t, UserByEmailFilter(email));
    forall r | r in t.users && r.email == email ensures res == Ok(r) {
      assert SelectsUser(UserByEmailFilter(email), r);
      UserEmailsUnique(t, res.value, r);
    }
  }

  /** users_email_key: two user rows with the same email are the same row. */
  lemma UserEmailsUnique(t: Tables, a: UserRow, b: UserRow)
    requires WellFormed(t) && a in t.users && b in t.users && a.email == b.email
    ensures a == b
  {
    var i :| 0 <= i < |t.users| && t.users[i] == a;
    var j :| 0 <= j < |t.users| && t.users[j] == b;
    assert i == j;
  }

  // ---- Statements on an open transaction ----

  /** The text queryUsers returns in place of sql.ErrNoRows. */
  const UserNotFoundMessage := "user not found"

  /** queryUsers' error mapping: sql.ErrNoRows becomes the plain "user not
      found" error, every other error is returned unchanged. */
  function QueryUsersError(e: Error): (r: Error)
    ensures e == Driver(NoRowsMessage) ==> r == Driver(UserNotFoundMessage)
    ensures e != Driver(NoRowsMessage) ==> r == e
    ensures r.App? <==> e.App?
  {
    if e == Driver(NoRowsMessage) then Driver(UserNotFoundMessage) else e
  }

  /** findUsers: translate the filter, then run the SELECT. A failed SELECT
      aborts the transaction (queryUsers rolls it back itself for
      sql.ErrNoRows). */
  method FindUsers(tx: Tx, filter: UserFilter, fault: Fault, step: nat) returns (tx': Tx, r: Result<seq<UserRow>>)
    ensures Exec(tx, fault, step).Some? ==>
      r == Err(QueryUsersError(Exec(tx, fault, step).value)) && tx' == tx.(aborted := true)
    ensures Exec(tx, fault, step).None? ==> r == Ok(UserQuery(tx.tables, filter)) && tx' == tx
  {
    var where, args := TranslateUserFilter(filter);
    var e := Exec(tx, fault, step);
    if e.Some? {
      if e.value == Driver(NoRowsMessage) {
        return tx.(aborted := true), Err(Driver(UserNotFoundMessage));
      }
      return tx.(aborted := true), Err(e.value);
    }
    var rows := Page(Matching(tx.tables.users, UserColumn, where, args), filter.limit, filter.offset);
    return tx, Ok(rows);
  }

  /** findOneUser: the query's error unchanged, ErrNotFound for no rows,
      otherwise the first row. */
  method FindOneUser(tx: Tx, filter: UserFilter, fault: Fault, step: nat) returns (tx': Tx, r: Result<UserRow>)
    ensures Exec(tx, fault, step).Some? ==>
      r == Err(QueryUsersError(Exec(tx, fault, step).value)) && tx' == tx.(aborted := true)
    ensures Exec(tx, fault, step).None? ==> r == UserLookup(tx.tables, filter) && tx' == tx
  {
    var rows;
    tx', rows := FindUsers(tx, filter, fault, step);
    if rows.Err? {
      return tx', Err(rows.error);
    }
    if |rows.value| == 0 {
      return tx', Err(App(NotFound));
    }
    return tx', Ok(rows.value[0]);
  }

  /** createUser: INSERT ... RETURNING id, created_at, updated_at, scanned
      back into `user`. Only the exact users_email_key violation becomes
      ErrDuplicateEmail; any other error is returned unchanged. */
  method CreateUserRow(tx: Tx, user: User, fault: Fault, step: nat) returns (tx': Tx, err: Option<Error>)
    requires Sound(tx)
    modifies user`id, user`createdAt, user`updatedAt
    ensures Sound(tx') && tx'.now == tx.now
    ensures Exec(tx, fault, step).Some? ==>
      && err == Some(ClassifyInsertError(Exec(tx, fault, step).value, UsersEmailKey))
      && tx' == tx.(aborted := true) && unchanged(user)
    ensures Exec(tx, fault, step).None? && EmailTaken(tx.tables, user.email) ==>
      err == Some(App(DuplicateEmail)) && tx' == tx.(aborted := true) && unchanged(user)
    ensures Exec(tx, fault, step).None? && !EmailTaken(tx.tables, user.email) ==>
      && err == None
      && tx' == tx.(tables := InsertUserRow(tx.tables, user.email, user.passwordHash, tx.now))
      && user.id == tx.tables.nextUserId && user.createdAt == tx.now && user.updatedAt == tx.now
  {
    var e := Exec(tx, fault, step);
    if e.None? && EmailTaken(tx.tables, user.email) {
      e := Some(Driver(UsersEmailKey));
    }
    if e.Some? {
      tx', err := tx.(aborted := true), Some(ClassifyInsertError(e.value, UsersEmailKey));
      assert Sound(tx');
      return;
    }
    InsertUserKeeps(tx.tables, user.email, user.passwordHash, tx.now);
    var t := InsertUserRow(tx.tables, user.email, user.passwordHash, tx.now);
    user.id, user.createdAt, user.updatedAt := tx.tables.nextUserId, tx.now, tx.now;
    tx', err := tx.(tables := t), None;
    assert Sound(tx');
  }

  /** updateUser: apply the patch to `user` in place, then write its email
      and password hash back and scan the new updated_at. Every failure is
      ErrInternal. A missing row is sql.ErrNoRows on the client and leaves
      the transaction usable; an email clash aborts it. */
  method UpdateUserRow(tx: Tx, user: User, patch: UserPatch, fault: Fault, step: nat) returns (tx': Tx, err: Option<Error>)
    requires Sound(tx)
    modifies user`email, user`passwordHash, user`updatedAt
    ensures Sound(tx') && tx'.now == tx.now
    ensures user.email == PatchValue(patch.email, old(user.email))
    ensures user.passwordHash == PatchValue(patch.passwordHash, old(user.passwordHash))
    ensures err.Some? <==>
      Exec(tx, fault, step).Some? || !HasUser(tx.tables, user.id) || EmailClashes(tx.tables, user.id, user.email)
    ensures err.Some? ==>
      && err == Some(App(Internal)) && tx'.tables == tx.tables
      && user.updatedAt == old(user.updatedAt)
      && (tx'.aborted <==> Exec(tx, fault, step).Some? || (HasUser(tx.tables, user.id) && EmailClashes(tx.tables, user.id, user.email)))
    ensures err.None? ==>
      && tx' == tx.(tables := SetUserFields(tx.tables, user.id, user.email, user.passwordHash, tx.now))
      && user.updatedAt == tx.now
  {
    user.email, user.passwordHash := PatchValue(patch.email, user.email), PatchValue(patch.passwordHash, user.passwordHash);
    var e := Exec(tx, fault, step);
    if e.Some? {
      tx', err := tx.(aborted := true), Some(App(Internal));
      assert Sound(tx');
      return;
    }
    if !HasUser(tx.tables, user.id) {
      return tx, Some(App(Internal));
    }
    if EmailClashes(tx.tables, user.id, user.email) {
      tx', err := tx.(aborted := true), Some(App(Internal));
      assert Sound(tx');
      return;
    }
    SetUserKeeps(tx.tables, user.id, user.email, user.passwordHash, tx.now);
    var t := SetUserFields(tx.tables, user.id, user.email, user.passwordHash, tx.now);
    user.updatedAt := tx.now;
    tx', err := tx.(tables := t), None;
    assert Sound(tx');
  }

  // ---- UserService: each call in its own transaction ----

  /** The service over one database connection; round trips are numbered
      from 0 in the order they happen: BeginTxx, the statements, Commit. */
  class UserService {
    const db: DB

    /** NewUserService. */
    constructor (db: DB)
      ensures this.db == db
    {
      this.db := db;
    }

    /** CreateUser: begin and commit errors are returned unchanged, insert
        errors as createUser maps them; the row is stored only when Commit
        succeeds. */
    method CreateUser(user: User, fault: Fault) returns (err: Option<Error>)
      requires db.Valid()
      modifies db`clock, db`committed, user`id, user`createdAt, user`updatedAt
      ensures db.Valid() && old(db.clock) <= db.clock
      ensures err.Some? ==> db.committed == old(db.committed)
      ensures fault.At(0).Some? ==> err == fault.At(0) && unchanged(user)
      ensures fault.At(0).None? && fault.At(1).Some? ==>
        err == Some(ClassifyInsertError(fault.At(1).value, UsersEmailKey)) && unchanged(user)
      ensures !fault.Before(2) && EmailTaken(old(db.committed), user.email) ==>
        err == Some(App(DuplicateEmail)) && unchanged(user)
      ensures !fault.Before(2) && !EmailTaken(old(db.committed), user.email) ==>
        && err == fault.At(2)
        && user.id == old(db.committed).nextUserId
        && user.createdAt == old(db.clock) + 1 && user.updatedAt == old(db.clock) + 1
        && (err.None? ==> db.committed == InsertUserRow(old(db.committed), user.email, user.passwordHash, old(db.clock) + 1))
    {
      var begun := db.Begin(fault, 0);
      if begun.Err? {
        return Some(begun.error);
      }
      var tx := begun.value;
      tx, err := CreateUserRow(tx, user, fault, 1);
      if err.Some? {
        return err;
      }
      err := db.Commit(tx, fault, 2);
    }

    /** A read-only lookup in its own transaction: begin and commit errors
        unchanged, query errors as queryUsers maps them, ErrNotFound for no
        row. Shared by UserByID and UserByEmail, which differ only in the
        filter (and in an isolation level the model does not distinguish). */
    method LookupUser(filter: UserFilter, fault: Fault) returns (r: Result<UserRow>)
      requires db.Valid()
      modifies db`clock, db`committed
      ensures db.Valid() && db.committed == old(db.committed)
      ensures db.clock == if fault.At(0).Some? then old(db.clock) else old(db.clock) + 1
      ensures fault.At(0).Some? ==> r == Err(fault.At(0).value)
      ensures fault.At(0).None? && fault.At(1).Some? ==> r == Err(QueryUsersError(fault.At(1).value))
      ensures !fault.Before(2) && UserLookup(db.committed, filter).Err? ==> r == UserLookup(db.committed, filter)
      ensures !fault.Before(2) && UserLookup(db.committed, filter).Ok? ==>
        r == if fault.At(2).Some? then Err(fault.At(2).value) else UserLookup(db.committed, filter)
    {
      var begun := db.Begin(fault, 0);
      if begun.Err? {
        return Err(begun.error);
      }
      var tx := begun.value;
      tx, r := FindOneUser(tx, filter, fault, 1);
      if r.Err? {
        return r;
      }
      var err := db.Commit(tx, fault, 2);
      if err.Some? {
        return Err(err.value);
      }
    }

    /** UserByID: the row with that id, or ErrNotFound. */
    method UserByID(id: nat, fault: Fault) returns (r: Result<UserRow>)
      requires db.Valid()
      modifies db`clock, db`committed
      ensures db.Valid() && db.committed == old(db.committed) && old(db.clock) <= db.clock
      ensures fault.At(0).Some? ==> r == Err(fault.At(0).value)
      ensures fault.At(0).None? && fault.At(1).Some? ==> r == Err(QueryUsersError(fault.At(1).value))
      ensures !fault.Before(2) && !HasUser(db.committed, id) ==> r == Err(App(NotFound))
      ensures !fault.Before(2) && HasUser(db.committed, id) && fault.At(2).Some? ==> r == Err(fault.At(2).value)
      ensures r.Ok? <==> !fault.Before(3) && HasUser(db.committed, id)
      ensures r.Ok? ==> r.value in db.committed.users && r.value.id == id
    {
      LookupUserById(db.committed, id);
      r := LookupUser(UserById(id), fault);
    }

    /** UserByEmail: the row with that email, or ErrNotFound. */
    method UserByEmail(email: string, fault: Fault) returns (r: Result<UserRow>)
      requires db.Valid()
      modifies db`clock, db`committed
      ensures db.Valid() && db.committed == old(db.committed) && old(db.clock) <= db.clock
      ensures fault.At(0).Some? ==> r == Err(fault.At(0).value)
      ensures fault.At(0).None? && fault.At(1).Some? ==> r == Err(QueryUsersError(fault.At(1).value))
      ensures !fault.Before(2) && !EmailTaken(db.committed, email) ==> r == Err(App(NotFound))
      ensures !fault.Before(2) && EmailTaken(db.committed, email) && fault.At(2).Some? ==> r == Err(fault.At(2).value)
      ensures r.Ok? <==> !fault.Before(3) && EmailTaken(db.committed, email)
      ensures r.Ok? ==> r.value in db.committed.users && r.value.email == email
    {
      LookupUserByEmail(db.committed, email);
      r := LookupUser(UserByEmailFilter(email), fault);
    }

    /** Users: the rows the filter's query returns; a begin or query error
        gives no rows, and a commit error is returned beside the rows. */
    method Users(filter: UserFilter, fault: Fault) returns (rows: seq<UserRow>, err: Option<Error>)
      requires db.Valid()
      modifies db`clock, db`committed
      ensures db.Valid() && db.committed == old(db.committed) && old(db.clock) <= db.clock
      ensures fault.At(0).Some? ==> rows == [] && err == fault.At(0)
      ensures fault.At(0).None? && fault.At(1).Some? ==> rows == [] && err == Some(QueryUsersError(fault.At(1).value))
      ensures !fault.Before(2) ==> rows == UserQuery(db.committed, filter) && err == fault.At(2)
    {
      var begun := db.Begin(fault, 0);
      if begun.Err? {
        return [], Some(begun.error);
      }
      var tx := begun.value;
      var found;
      tx, found := FindUsers(tx, filter, fault, 1);
      if found.Err? {
        return [], Some(found.error);
      }
      err := db.Commit(tx, fault, 2);
      rows := found.value;
    }

    /** Authenticate: the lookup's error unchanged; ErrUnAuthorized when the
        password does not match the stored hash; otherwise the user. */
    method Authenticate(email: string, password: string, compare: Compare, fault: Fault) returns (r: Result<UserRow>)
      requires db.Valid()
      modifies db`clock, db`committed
      ensures db.Valid() && db.committed == old(db.committed) && old(db.clock) <= db.clock
      ensures fault.At(0).Some? ==> r == Err(fault.At(0).value)
      ensures fault.At(0).None? && fault.At(1).Some? ==> r == Err(QueryUsersError(fault.At(1).value))
      ensures !fault.Before(2) && !EmailTaken(db.committed, email) ==> r == Err(App(NotFound))
      ensures !fault.Before(2) && EmailTaken(db.committed, email) && fault.At(2).Some? ==> r == Err(fault.At(2).value)
      ensures r.Ok? <==>
        && !fault.Before(3)
        && exists u :: u in db.committed.users && u.email == email && PasswordMatches(u.passwordHash, password, compare)
      ensures r.Ok? ==> r.value in db.committed.users && r.value.email == email
      ensures !fault.Before(3) && EmailTaken(db.committed, email) && r.Err? ==> r == Err(App(UnAuthorized))
    {
      var found := UserByEmail(email, fault);
      if found.Err? {
        return found;
      }
      var row := found.value;
      var user := new User(row.id, row.email, "", row.passwordHash, row.createdAt, row.updatedAt);
      if !user.VerifyPassword(password, compare) {
        return Err(App(UnAuthorized));
      }
      r := found;
      forall u | u in db.committed.users && u.email == email ensures u == row {
        UserEmailsUnique(db.committed, u, row);
      }
    }

    /** UpdateUser: every failure, a missing row included, is ErrInternal
        and leaves the store as it was. The patch reaches the caller's user
        as soon as the transaction has begun. */
    method UpdateUser(user: User, patch: UserPatch, fault: Fault) returns (err: Option<Error>)
      requires db.Valid()
      modifies db`clock, db`committed, user`email, user`passwordHash, user`updatedAt
      ensures db.Valid() && old(db.clock) <= db.clock
      ensures err.Some? ==> err == Some(App(Internal)) && db.committed == old(db.committed)
      ensures fault.At(0).Some? ==> err.Some? && unchanged(user)
      ensures fault.At(0).None? ==>
        && user.email == PatchValue(patch.email, old(user.email))
        && user.passwordHash == PatchValue(patch.passwordHash, old(user.passwordHash))
      ensures err.None? <==>
        !fault.Before(3) && HasUser(old(db.committed), user.id) && !EmailClashes(old(db.committed), user.id, user.email)
      ensures err.None? ==>
        && db.committed == SetUserFields(old(db.committed), user.id, user.email, user.passwordHash, old(db.clock) + 1)
        && user.updatedAt == old(db.clock) + 1
      ensures fault.At(0).None? ==>
        user.updatedAt ==
          if fault.At(1).None? && HasUser(old(db.committed), user.id) && !EmailClashes(old(db.committed), user.id, user.email)
          then old(db.clock) + 1 else old(user.updatedAt)
    {
      var begun := db.Begin(fault, 0);
      if begun.Err? {
        return Some(App(Internal));
      }
      var tx := begun.value;
      assert tx.tables == old(db.committed) && tx.now == old(db.clock) + 1;
      tx, err := UpdateUserRow(tx, user, patch, fault, 1);
      if err.Some? {
        return Some(App(Internal));
      }
      err := db.Commit(tx, fault, 2);
      if err.Some? {
        return Some(App(Internal));
      }
    }

    /** DeleteUser: DELETE FROM users WHERE id. A missing id is no error; only
        the row with that id goes; every failure is ErrInternal. */
    method DeleteUser(id: nat, fault: Fault) returns (err: Option<Error>)
      requires db.Valid()
      modifies db`clock, db`committed
      ensures db.Valid() && old(db.clock) <= db.clock
      ensures err.Some? ==> err == Some(App(Internal)) && db.committed == old(db.committed)
      ensures err.None? <==> !fault.Before(3)
      ensures err.None? ==> db.committed == DeleteUserRows(old(db.committed), id)
    {
      var begun := db.Begin(fault, 0);
      if begun.Err? {
        return Some(App(Internal));
      }
      var tx := begun.value;
      var e := Exec(tx, fault, 1);
      if e.Some? {
        return Some(App(Internal));
      }
      DeleteUserKeeps(tx.tables, id, tx.now);
      tx := tx.(tables := DeleteUserRows(tx.tables, id));
      err := db.Commit(tx, fault, 2);
      if err.Some? {
        return Some(App(Internal));
      }
    }
  }
}
