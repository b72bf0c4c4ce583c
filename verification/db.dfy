/** The PostgreSQL store behind the postgres package: three tables, a clock
    standing for NOW(), and transactions whose writes reach the committed
    tables only when Commit succeeds. */
module Db {
  import opened Errors
  import opened Sql

  datatype UserRow = UserRow(id: int, email: string, passwordHash: string, createdAt: int, updatedAt: int)

  datatype CollectionRow = CollectionRow(
    id: int, authorId: int, name: string, description: string, poster: string,
    createdAt: int, updatedAt: int)

  /** A row of collections_images. */
  datatype ImageRow = ImageRow(imgPath: string, collectionId: int, createdAt: int)

  /** The contents of the database. Rows are kept in ascending id order, so
      `ORDER BY id ASC` is table order; the next values of the two serial id
      sequences live beside them. */
  datatype Tables = Tables(
    users: seq<UserRow>, collections: seq<CollectionRow>, images: set<ImageRow>,
    nextUserId: int, nextCollectionId: int)

  /** The columns of `SELECT * from users` that a filter can compare. */
  function UserColumn(row: UserRow, column: string): Option<Arg>
  {
    if column == "id" then Some(IntArg(row.id))
    else if column == "email" then Some(TextArg(row.email))
    else if column == "password_hash" then Some(TextArg(row.passwordHash))
    else None
  }

  /** The columns of `SELECT * from collections` that a filter can compare. */
  function CollectionColumn(row: CollectionRow, column: string): Option<Arg>
  {
    if column == "id" then Some(IntArg(row.id))
    else if column == "author_id" then Some(IntArg(row.authorId))
    else if column == "name" then Some(TextArg(row.name))
    else if column == "description" then Some(TextArg(row.description))
    else if column == "poster" then Some(TextArg(row.poster))
    else None
  }

  /** Primary key order and the users_email_key unique constraint. */
  predicate UserOrder(a: UserRow, b: UserRow)
  {
    a.id < b.id && a.email != b.email
  }

  /** Primary key order and the collection_name_user_key unique constraint
      on (author_id, name). */
  predicate CollectionOrder(a: CollectionRow, b: CollectionRow)
  {
    a.id < b.id && (a.authorId != b.authorId || a.name != b.name)
  }

  /** What the schema guarantees of every committed state. */
  ghost predicate WellFormed(t: Tables)
  {
    && Pairwise(t.users, UserOrder)
    && (forall r :: r in t.users ==> r.id < t.nextUserId)
    && Pairwise(t.collections, CollectionOrder)
    && (forall r :: r in t.collections ==> r.id < t.nextCollectionId)
    && (forall a, b :: a in t.images && b in t.images && a.imgPath == b.imgPath && a.collectionId == b.collectionId ==> a == b)
  }

  /** Every timestamp in the tables was taken at or before `clock`. */
  ghost predicate StampedBy(t: Tables, clock: int)
  {
    && (forall r :: r in t.users ==> r.createdAt <= clock && r.updatedAt <= clock)
    && (forall r :: r in t.collections ==> r.createdAt <= clock && r.updatedAt <= clock)
    && (forall r :: r in t.images ==> r.createdAt <= clock)
  }

  /** An open transaction: its private view of the tables, the value NOW()
      has in it (PostgreSQL fixes NOW() at transaction start), and whether a
      failed statement has put it into the aborted state. */
  datatype Tx = Tx(tables: Tables, now: int, aborted: bool)

  /** An open transaction's view is well formed, and stamped no later than its NOW(). */
  ghost predicate Sound(tx: Tx)
  {
    WellFormed(tx.tables) && StampedBy(tx.tables, tx.now)
  }

  /** Infrastructure failure of one round trip to the server. Each service
      call numbers its round trips (begin, statements, commit) from 0; at
      most one of them fails, with the given driver text. One is enough:
      every failure but markCollectionUpdate's ends the call, and that one
      aborts the transaction so that its commit fails. */
  datatype Fault = NoFault | FailAt(step: nat, message: string) {
    function At(k: nat): (r: Option<Error>)
      ensures r.Some? <==> FailAt? && step == k
      ensures r.Some? ==> r.value == Driver(message)
    {
      if FailAt? && step == k then Some(Driver(message)) else None
    }

    /** The same failure as seen by a call nested `offset` round trips into
        this one; a failure before the nested call does not reach it. */
    function Shift(offset: nat): (r: Fault)
      ensures r.FailAt? <==> FailAt? && step >= offset
      ensures r.FailAt? ==> r.step == step - offset && r.message == message
    {
      if FailAt? && step >= offset then FailAt(step - offset, message) else NoFault
    }

    /** The failure hits one of the round trips numbered below `n`. */
    predicate Before(n: nat)
    {
      FailAt? && step < n
    }
  }

  /** The error a statement at round trip `step` of `tx` meets before it
      touches any row: statements in an aborted transaction are refused. */
  function Exec(tx: Tx, fault: Fault, step: nat): (r: Option<Error>)
    ensures !tx.aborted ==> r == fault.At(step)
    ensures tx.aborted ==> r == Some(Driver(AbortedTransactionMessage))
  {
    if tx.aborted then Some(Driver(AbortedTransactionMessage)) else fault.At(step)
  }

  // ---- Statement effects on the tables ----

  predicate HasUser(t: Tables, id: int)
  {
    exists r :: r in t.users && r.id == id
  }

  predicate HasCollection(t: Tables, id: int)
  {
    exists r :: r in t.collections && r.id == id
  }

  /** An INSERT of `email` would violate users_email_key. */
  predicate EmailTaken(t: Tables, email: string)
  {
    exists r :: r in t.users && r.email == email
  }

  /** Setting user `id`'s email to `email` would violate users_email_key. */
  predicate EmailClashes(t: Tables, id: int, email: string)
  {
    exists r :: r in t.users && r.id != id && r.email == email
  }

  /** An INSERT of (authorId, name) would violate collection_name_user_key. */
  predicate NameTaken(t: Tables, authorId: int, name: string)
  {
    exists r :: r in t.collections && r.authorId == authorId && r.name == name
  }

  /** Renaming collection `id` to `name` would violate collection_name_user_key. */
  predicate RenameClashes(t: Tables, id: int, name: string)
  {
    exists a, b :: a in t.collections && b in t.collections && a.id == id && b.id != id
      && b.authorId == a.authorId && b.name == name
  }

  /** A collections_images row for (path, collection) exists. */
  predicate ImageSaved(t: Tables, path: string, collectionId: int)
  {
    exists r :: r in t.images && r.imgPath == path && r.collectionId == collectionId
  }

  /** INSERT INTO users ... RETURNING id: the row takes the next serial id. */
  function InsertUserRow(t: Tables, email: string, passwordHash: string, now: int): Tables
  {
    t.(users := t.users + [UserRow(t.nextUserId, email, passwordHash, now, now)], nextUserId := t.nextUserId + 1)
  }

  /** UPDATE users SET email, password_hash, updated_at = NOW() WHERE id. */
  function SetUserFields(t: Tables, id: int, email: string, passwordHash: string, now: int): Tables
  {
    t.(users := UpdateWhere(t.users, (r: UserRow) => r.id == id,
                            (r: UserRow) => r.(email := email, passwordHash := passwordHash, updatedAt := now)))
  }

  /** DELETE FROM users WHERE id. */
  function DeleteUserRows(t: Tables, id: int): Tables
  {
    t.(users := Keep(t.users, (r: UserRow) => r.id != id))
  }

  /** INSERT INTO collections ... RETURNING id: the row takes the next serial id. */
  function InsertCollectionRow(t: Tables, authorId: int, name: string, description: string, poster: string, now: int): Tables
  {
    var row := CollectionRow(t.nextCollectionId, authorId, name, description, poster, now, now);
    t.(collections := t.collections + [row], nextCollectionId := t.nextCollectionId + 1)
  }

  /** UPDATE collections SET name, description, poster, updated_at = NOW() WHERE id. */
  function SetCollectionFields(t: Tables, id: int, name: string, description: string, poster: string, now: int): Tables
  {
    t.(collections := UpdateWhere(t.collections, (r: CollectionRow) => r.id == id,
      (r: CollectionRow) => r.(name := name, description := description, poster := poster, updatedAt := now)))
  }

  /** UPDATE collections SET updated_at = NOW() WHERE id. */
  function TouchCollection(t: Tables, id: int, now: int): Tables
  {
    t.(collections := UpdateWhere(t.collections, (r: CollectionRow) => r.id == id, (r: CollectionRow) => r.(updatedAt := now)))
  }

  /** DELETE FROM collections WHERE id. */
  function DeleteCollectionRows(t: Tables, id: int): Tables
  {
    t.(collections := Keep(t.collections, (r: CollectionRow) => r.id != id))
  }

  /** INSERT INTO collections_images (img_path, collection_id, created_at). */
  function AddImage(t: Tables, path: string, collectionId: int, now: int): Tables
  {
    t.(images := t.images + {ImageRow(path, collectionId, now)})
  }

  /** DELETE FROM collections_images WHERE img_path AND collection_id. */
  function RemoveImage(t: Tables, path: string, collectionId: int): Tables
  {
    t.(images := set r | r in t.images && !(r.imgPath == path && r.collectionId == collectionId))
  }

  /** The primary key: two collection rows with the same id are the same row. */
  lemma CollectionIdsUnique(t: Tables, a: CollectionRow, b: CollectionRow)
    requires WellFormed(t) && a in t.collections && b in t.collections && a.id == b.id
    ensures a == b
  {
    var i :| 0 <= i < |t.collections| && t.collections[i] == a;
    var j :| 0 <= j < |t.collections| && t.collections[j] == b;
    assert i == j;
  }

  /** The primary key: two user rows with the same id are the same row. */
  lemma UserIdsUnique(t: Tables, a: UserRow, b: UserRow)
    requires WellFormed(t) && a in t.users && b in t.users && a.id == b.id
    ensures a == b
  {
    var i :| 0 <= i < |t.users| && t.users[i] == a;
    var j :| 0 <= j < |t.users| && t.users[j] == b;
    assert i == j;
  }

  /** DELETE FROM users WHERE id removes exactly the rows with that id. */
  lemma DeleteUserRowsEffect(t: Tables, id: int)
    ensures forall r :: r in DeleteUserRows(t, id).users <==> r in t.users && r.id != id
    ensures DeleteUserRows(t, id).collections == t.collections && DeleteUserRows(t, id).images == t.images
  {
    forall r | r in t.users && r.id != id ensures r in DeleteUserRows(t, id).users {
      KeepComplete(t.users, (x: UserRow) => x.id != id, r);
    }
  }

  /** DELETE FROM collections WHERE id removes exactly the rows with that
      id, and no image row. */
  lemma DeleteCollectionRowsEffect(t: Tables, id: int)
    ensures forall r :: r in DeleteCollectionRows(t, id).collections <==> r in t.collections && r.id != id
    ensures DeleteCollectionRows(t, id).users == t.users && DeleteCollectionRows(t, id).images == t.images
  {
    forall r | r in t.collections && r.id != id ensures r in DeleteCollectionRows(t, id).collections {
      KeepComplete(t.collections, (x: CollectionRow) => x.id != id, r);
    }
  }

  // ---- Every write the code issues keeps the schema's guarantees ----

  lemma InsertUserKeeps(t: Tables, email: string, passwordHash: string, now: int)
    requires WellFormed(t) && StampedBy(t, now) && !EmailTaken(t, email)
    ensures WellFormed(InsertUserRow(t, email, passwordHash, now))
    ensures StampedBy(InsertUserRow(t, email, passwordHash, now), now)
  {
    var row := UserRow(t.nextUserId, email, passwordHash, now, now);
    PairwiseAppend(t.users, row, UserOrder);
  }

  lemma SetUserKeeps(t: Tables, id: int, email: string, passwordHash: string, now: int)
    requires WellFormed(t) && StampedBy(t, now) && !EmailClashes(t, id, email)
    ensures WellFormed(SetUserFields(t, id, email, passwordHash, now))
    ensures StampedBy(SetUserFields(t, id, email, passwordHash, now), now)
  {
    var u, u' := t.users, SetUserFields(t, id, email, passwordHash, now).users;
    forall i, j | 0 <= i < j < |u'| ensures UserOrder(u'[i], u'[j]) {
      assert UserOrder(u[i], u[j]);
      assert u[i] in t.users && u[j] in t.users;
    }
    forall r | r in u' ensures r.id < t.nextUserId && r.createdAt <= now && r.updatedAt <= now {
      var k :| 0 <= k < |u'| && u'[k] == r;
      assert u[k] in t.users;
    }
  }

  lemma DeleteUserKeeps(t: Tables, id: int, now: int)
    requires WellFormed(t) && StampedBy(t, now)
    ensures WellFormed(DeleteUserRows(t, id)) && StampedBy(DeleteUserRows(t, id), now)
  {
    KeepPairwise(t.users, (r: UserRow) => r.id != id, UserOrder);
  }

  lemma InsertCollectionKeeps(t: Tables, authorId: int, name: string, description: string, poster: string, now: int)
    requires WellFormed(t) && StampedBy(t, now) && !NameTaken(t, authorId, name)
    ensures WellFormed(InsertCollectionRow(t, authorId, name, description, poster, now))
    ensures StampedBy(InsertCollectionRow(t, authorId, name, description, poster, now), now)
  {
    var row := CollectionRow(t.nextCollectionId, authorId, name, description, poster, now, now);
    PairwiseAppend(t.collections, row, CollectionOrder);
  }

  lemma SetCollectionKeeps(t: Tables, id: int, name: string, description: string, poster: string, now: int)
    requires WellFormed(t) && StampedBy(t, now) && !RenameClashes(t, id, name)
    ensures WellFormed(SetCollectionFields(t, id, name, description, poster, now))
    ensures StampedBy(SetCollectionFields(t, id, name, description, poster, now), now)
  {
    var c, c' := t.collections, SetCollectionFields(t, id, name, description, poster, now).collections;
    forall i, j | 0 <= i < j < |c'| ensures CollectionOrder(c'[i], c'[j]) {
      assert CollectionOrder(c[i], c[j]);
      assert c[i] in t.collections && c[j] in t.collections;
    }
    forall r | r in c' ensures r.id < t.nextCollectionId && r.createdAt <= now && r.updatedAt <= now {
      var k :| 0 <= k < |c'| && c'[k] == r;
      assert c[k] in t.collections;
    }
  }

  lemma TouchCollectionKeeps(t: Tables, id: int, now: int)
    requires WellFormed(t) && StampedBy(t, now)
    ensures WellFormed(TouchCollection(t, id, now)) && StampedBy(TouchCollection(t, id, now), now)
  {
    var c, c' := t.collections, TouchCollection(t, id, now).collections;
    forall i, j | 0 <= i < j < |c'| ensures CollectionOrder(c'[i], c'[j]) {
      assert CollectionOrder(c[i], c[j]);
    }
    forall r | r in c' ensures r.id < t.nextCollectionId && r.createdAt <= now && r.updatedAt <= now {
      var k :| 0 <= k < |c'| && c'[k] == r;
      assert c[k] in t.collections;
    }
  }

  lemma DeleteCollectionKeeps(t: Tables, id: int, now: int)
    requires WellFormed(t) && StampedBy(t, now)
    ensures WellFormed(DeleteCollectionRows(t, id)) && StampedBy(DeleteCollectionRows(t, id), now)
  {
    KeepPairwise(t.collections, (r: CollectionRow) => r.id != id, CollectionOrder);
  }

  lemma AddImageKeeps(t: Tables, path: string, collectionId: int, now: int)
    requires WellFormed(t) && StampedBy(t, now) && !ImageSaved(t, path, collectionId)
    ensures WellFormed(AddImage(t, path, collectionId, now)) && StampedBy(AddImage(t, path, collectionId, now), now)
  {
  }

  lemma RemoveImageKeeps(t: Tables, path: string, collectionId: int, now: int)
    requires WellFormed(t) && StampedBy(t, now)
    ensures WellFormed(RemoveImage(t, path, collectionId)) && StampedBy(RemoveImage(t, path, collectionId), now)
  {
  }

  /** The database connection with its committed tables and its clock. */
  class DB {
    var committed: Tables
    var clock: int

    ghost predicate Valid()
      reads this
    {
      WellFormed(committed) && StampedBy(committed, clock)
    }

    /** An empty database whose serial sequences start at 1. No code here
        allocates one; it shows that `Valid()` can be established, so the
        services' `requires db.Valid()` is satisfiable. */
    constructor ()
      ensures Valid()
      ensures committed == Tables([], [], {}, 1, 1) && clock == 0
    {
      committed := Tables([], [], {}, 1, 1);
      clock := 0;
    }

    /** BeginTxx: on success the clock advances and the transaction starts
        from the committed tables. */
    method Begin(fault: Fault, step: nat) returns (r: Result<Tx>)
      requires Valid()
      modifies this`clock
      ensures Valid()
      ensures fault.At(step).Some? ==> r == Err(fault.At(step).value) && clock == old(clock)
      ensures fault.At(step).None? ==> clock == old(clock) + 1 && r == Ok(Tx(committed, clock, false))
      ensures r.Ok? ==> Sound(r.value) && r.value.now == clock
    {
      var e := fault.At(step);
      if e.Some? {
        return Err(e.value);
      }
      clock := clock + 1;
      r := Ok(Tx(committed, clock, false));
    }

    /** tx.Commit: the transaction's tables become the committed ones unless
        it is aborted or the round trip fails; otherwise nothing changes
        (the deferred Rollback discards the transaction). */
    method Commit(tx: Tx, fault: Fault, step: nat) returns (err: Option<Error>)
      requires Valid() && Sound(tx) && tx.now <= clock
      modifies this`committed
      ensures Valid()
      ensures err == if tx.aborted then Some(Driver(FailedTransactionMessage)) else fault.At(step)
      ensures committed == if err.None? then tx.tables else old(committed)
    {
      if tx.aborted {
        return Some(Driver(FailedTransactionMessage));
      }
      err := fault.At(step);
      if err.None? {
        StampedLater(tx.tables, tx.now, clock);
        committed := tx.tables;
      }
    }
  }

  /** A state stamped by some time is stamped by every later time. */
  lemma StampedLater(t: Tables, a: int, b: int)
    requires StampedBy(t, a) && a <= b
    ensures StampedBy(t, b)
  {
  }
}
