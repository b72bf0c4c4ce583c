/** The collection half of the postgres package: the filter translator, the
    statements on an open transaction, and the CollectionService wrappers
    that run them between BeginTxx and Commit. */
module PostgresCollection {
  import opened Errors
  import opened Patch
  import opened Sql
  import opened Db
  import opened AppCollection

  // ---- findCollections: filter translation and what the query returns ----

  /** The predicates findCollections translates, in order: ID, then Name.
      The filter's AuthorId is not among them. */
  function CollectionConditions(f: CollectionFilter): Conditions
  {
    match (f.id, f.name)
    case (Some(id), Some(name)) => [("id", IntArg(id)), ("name", TextArg(name))]
    case (Some(id), None) => [("id", IntArg(id))]
    case (None, Some(name)) => [("name", TextArg(name))]
    case (None, None) => []
  }

  /** What a filter asks of a row. */
  predicate SelectsCollection(f: CollectionFilter, row: CollectionRow)
  {
    && (f.id.Some? ==> row.id == f.id.value)
    && (f.name.Some? ==> row.name == f.name.value)
  }

  /** The rows `SELECT * from collections WHERE ... ORDER BY id ASC LIMIT ...
      OFFSET ...` returns for the translated filter. */
  function CollectionQuery(t: Tables, f: CollectionFilter): seq<CollectionRow>
  {
    var conds := CollectionConditions(f);
    Page(Matching(t.collections, CollectionColumn, Numbered(conds), Values(conds)), f.limit, f.offset)
  }

  /** findOneCollection's outcome on a successful query: ErrNotFound for no
      rows, the first row otherwise. */
  function CollectionLookup(t: Tables, f: CollectionFilter): Result<CollectionRow>
  {
    var rows := CollectionQuery(t, f);
    if rows == [] then Err(App(NotFound)) else Ok(rows[0])
  }

  /** The where-list and argument list of findCollections, grown by appends
      while a counter numbers the placeholders. A fragment holds a column
      name and a placeholder number; the compared values go only to `args`. */
  method TranslateCollectionFilter(filter: CollectionFilter) returns (where: seq<Fragment>, args: seq<Arg>)
    ensures where == Numbered(CollectionConditions(filter)) && args == Values(CollectionConditions(filter))
    ensures |where| == |args| <= 2
    ensures where == [] <==> filter.id.None? && filter.name.None?
    ensures forall k :: 0 <= k < |where| ==> where[k].position == k + 1
    ensures forall k :: 0 <= k < |where| ==> where[k].column == "id" || where[k].column == "name"
    ensures filter.id.Some? ==> where[0] == Eq("id", 1) && args[0] == IntArg(filter.id.value)
    ensures filter.name.Some? ==> where[|where| - 1] == Eq("name", |where|) && args[|args| - 1] == TextArg(filter.name.value)
  {
    where, args := [], [];
    var argPosition := 0;
    if filter.id.Some? {
      argPosition := argPosition + 1;
      where, args := where + [Eq("id", argPosition)], args + [IntArg(filter.id.value)];
    }
    if filter.name.Some? {
      argPosition := argPosition + 1;
      where, args := where + [Eq("name", argPosition)], args + [TextArg(filter.name.value)];
    }
  }

  /** The translated WHERE list holds of a row exactly when the row has the
      filter's ID and Name. */
  lemma CollectionFilterMeaning(f: CollectionFilter, row: CollectionRow)
    ensures Satisfies(row, CollectionColumn, Numbered(CollectionConditions(f)), Values(CollectionConditions(f)))
        <==> SelectsCollection(f, row)
  {
    var conds := CollectionConditions(f);
    NumberedMeaning(row, CollectionColumn, conds);
    match (f.id, f.name)
    case (Some(id), Some(name)) => AllHoldTwo(row, CollectionColumn, ("id", IntArg(id)), ("name", TextArg(name)));
    case (Some(id), None) => AllHoldOne(row, CollectionColumn, ("id", IntArg(id)));
    case (None, Some(name)) => AllHoldOne(row, CollectionColumn, ("name", TextArg(name)));
    case (None, None) =>
  }

  /** Without LIMIT and OFFSET the query returns exactly the rows the filter
      selects. */
  lemma UnpagedCollectionQuery(t: Tables, f: CollectionFilter, row: CollectionRow)
    requires f.limit == 0 && f.offset == 0
    ensures row in CollectionQuery(t, f) <==> row in t.collections && SelectsCollection(f, row)
  {
    var conds := CollectionConditions(f);
    CollectionFilterMeaning(f, row);
    if row in t.collections && SelectsCollection(f, row) {
      KeepComplete(t.collections, (r: CollectionRow) => Satisfies(r, CollectionColumn, Numbered(conds), Values(conds)), row);
    }
  }

  /** Every returned row is a selected table row, in ascending id order,
      whatever the page. */
  lemma CollectionQuerySound(t: Tables, f: CollectionFilter)
    requires WellFormed(t)
    ensures forall r :: r in CollectionQuery(t, f) ==> r in t.collections && SelectsCollection(f, r)
    ensures Pairwise(CollectionQuery(t, f), CollectionOrder)
  {
    var conds := CollectionConditions(f);
    var p := (r: CollectionRow) => Satisfies(r, CollectionColumn, Numbered(conds), Values(conds));
    KeepPairwise(t.collections, p, CollectionOrder);
    PagePairwise(Keep(t.collections, p), f.limit, f.offset, CollectionOrder);
    forall r | r in CollectionQuery(t, f) ensures SelectsCollection(f, r) {
      CollectionFilterMeaning(f, r);
    }
  }

  /** The filter's AuthorId changes neither the translation nor the result:
      listing "by author" lists every author's collections. */
  lemma AuthorIdIgnored(t: Tables, f: CollectionFilter, authorId: Option<int>)
    ensures CollectionConditions(f.(authorId := authorId)) == CollectionConditions(f)
    ensures CollectionQuery(t, f.(authorId := authorId)) == CollectionQuery(t, f)
  {
  }

  /** On the first page, findOneCollection's row is the selected row with
      the smallest id; it fails with ErrNotFound only when no row is selected. */
  lemma FirstMatchIsSmallest(t: Tables, f: CollectionFilter)
    requires WellFormed(t) && f.offset == 0
    ensures CollectionLookup(t, f).Err? <==> forall r :: r in t.collections ==> !SelectsCollection(f, r)
    ensures CollectionLookup(t, f).Err? ==> CollectionLookup(t, f).error == App(NotFound)
    ensures CollectionLookup(t, f).Ok? ==>
      && CollectionLookup(t, f).value in t.collections
      && SelectsCollection(f, CollectionLookup(t, f).value)
      && forall r :: r in t.collections && SelectsCollection(f, r) ==> CollectionLookup(t, f).value.id <= r.id
  {
    var conds := CollectionConditions(f);
    var p := (r: CollectionRow) => Satisfies(r, CollectionColumn, Numbered(conds), Values(conds));
    var m := Keep(t.collections, p);
    CollectionQuerySound(t, f);
    KeepPairwise(t.collections, p, CollectionOrder);
    forall r | r in t.collections && SelectsCollection(f, r)
      ensures m != [] && m[0].id <= r.id
    {
      CollectionFilterMeaning(f, r);
      KeepComplete(t.collections, p, r);
      if r != m[0] {
        HeadFirst(m, CollectionOrder, r);
      }
    }
    if m != [] {
      PageHead(m, f.limit);
    }
  }

  /** The filter findCollectionByID builds. */
  function ById(id: int): CollectionFilter
  {
    CollectionFilter(Some(id), None, None, 0, 0)
  }

  /** Looking a collection up by id finds the one row with that id, or fails
      with ErrNotFound when there is none. */
  lemma LookupById(t: Tables, id: int)
    requires WellFormed(t)
    ensures CollectionLookup(t, ById(id)).Ok? <==> HasCollection(t, id)
    ensures CollectionLookup(t, ById(id)).Err? ==> CollectionLookup(t, ById(id)).error == App(NotFound)
    ensures forall r :: r in t.collections && r.id == id ==> CollectionLookup(t, ById(id)) == Ok(r)
  {
    FirstMatchIsSmallest(t, ById(id));
    var res := CollectionLookup(t, ById(id));
    forall r | r in t.collections && r.id == id ensures res == Ok(r) {
      assert SelectsCollection(ById(id), r);
      CollectionIdsUnique(t, res.value, r);
    }
  }

  /** When the stored row is the one the caller's collection was loaded
      from, UpdateCollection stores that row patched: absent fields kept,
      present ones replaced, id, author and created_at untouched, updated_at
      the transaction's NOW(); every other row is left as it was. */
  lemma PatchedRowStored(t: Tables, row: CollectionRow, patch: CollectionPatch, now: int)
    requires row in t.collections
    ensures var t' := SetCollectionFields(t, row.id, PatchValue(patch.name, row.name),
                                          PatchValue(patch.description, row.description), PatchValue(patch.poster, row.poster), now);
      && CollectionRow(row.id, row.authorId, PatchValue(patch.name, row.name), PatchValue(patch.description, row.description),
                       PatchValue(patch.poster, row.poster), row.createdAt, now) in t'.collections
      && (forall r :: r in t.collections && r.id != row.id ==> r in t'.collections)
      && |t'.collections| == |t.collections| && t'.users == t.users && t'.images == t.images
  {
    var t' := SetCollectionFields(t, row.id, PatchValue(patch.name, row.name),
                                  PatchValue(patch.description, row.description), PatchValue(patch.poster, row.poster), now);
    var k :| 0 <= k < |t.collections| && t.collections[k] == row;
    assert t'.collections[k].id == row.id;
    forall r | r in t.collections && r.id != row.id ensures r in t'.collections {
      var j :| 0 <= j < |t.collections| && t.collections[j] == r;
      assert t'.collections[j] == r;
    }
  }

  /** Deleting an image that is not in the collection deletes nothing, yet
      the collection's updated_at still becomes NOW(). */
  lemma RemovingNonMemberStillTouches(t: Tables, path: string, collectionId: int, now: int)
    requires !ImageSaved(t, path, collectionId)
    ensures var t' := TouchCollection(RemoveImage(t, path, collectionId), collectionId, now);
      && t'.images == t.images
      && forall k :: 0 <= k < |t.collections| && t.collections[k].id == collectionId ==>
           t'.collections[k] == t.collections[k].(updatedAt := now)
  {
    assert RemoveImage(t, path, collectionId).images == t.images;
  }

  // ---- Statements on an open transaction ----

  /** findCollections: translate the filter, then run the SELECT. A failed
      SELECT returns the driver's error unchanged and aborts the transaction. */
  method FindCollections(tx: Tx, filter: CollectionFilter, fault: Fault, step: nat)
    returns (tx': Tx, r: Result<seq<CollectionRow>>)
    ensures Exec(tx, fault, step).Some? ==> r == Err(Exec(tx, fault, step).value) && tx' == tx.(aborted := true)
    ensures Exec(tx, fault, step).None? ==> r == Ok(CollectionQuery(tx.tables, filter)) && tx' == tx
  {
    var where, args := TranslateCollectionFilter(filter);
    var e := Exec(tx, fault, step);
    if e.Some? {
      return tx.(aborted := true), Err(e.value);
    }
    var rows := Page(Matching(tx.tables.collections, CollectionColumn, where, args), filter.limit, filter.offset);
    return tx, Ok(rows);
  }

  /** findOneCollection: the query's error unchanged, ErrNotFound for no
      rows, otherwise the first row. */
  method FindOneCollection(tx: Tx, filter: CollectionFilter, fault: Fault, step: nat)
    returns (tx': Tx, r: Result<CollectionRow>)
    ensures Exec(tx, fault, step).Some? ==> r == Err(Exec(tx, fault, step).value) && tx' == tx.(aborted := true)
    ensures Exec(tx, fault, step).None? ==> r == CollectionLookup(tx.tables, filter) && tx' == tx
  {
    var rows;
    tx', rows := FindCollections(tx, filter, fault, step);
    if rows.Err? {
      return tx', Err(rows.error);
    }
    if |rows.value| == 0 {
      return tx', Err(App(NotFound));
    }
    return tx', Ok(rows.value[0]);
  }

  /** findCollectionByID: the row with that id, or ErrNotFound. */
  method FindCollectionByID(tx: Tx, id: int, fault: Fault, step: nat) returns (tx': Tx, r: Result<CollectionRow>)
    requires Sound(tx)
    ensures Exec(tx, fault, step).Some? ==> r == Err(Exec(tx, fault, step).value) && tx' == tx.(aborted := true)
    ensures Exec(tx, fault, step).None? ==>
      && tx' == tx && r == CollectionLookup(tx.tables, ById(id))
      && (r.Ok? <==> HasCollection(tx.tables, id))
      && (r.Ok? ==> r.value in tx.tables.collections && r.value.id == id)
      && (r.Err? ==> r.error == App(NotFound))
  {
    LookupById(tx.tables, id);
    tx', r := FindOneCollection(tx, ById(id), fault, step);
  }

  /** createCollection: INSERT ... RETURNING id, created_at, updated_at,
      author_id, scanned back into `collection` (author_id comes back as
      inserted). Only the exact collection_name_user_key violation becomes
      ErrDuplicateEmail; any other error is returned unchanged. */
  method CreateCollectionRow(tx: Tx, collection: Collection, fault: Fault, step: nat) returns (tx': Tx, err: Option<Error>)
    requires Sound(tx)
    modifies collection`id, collection`createdAt, collection`updatedAt
    ensures Sound(tx') && tx'.now == tx.now
    ensures Exec(tx, fault, step).Some? ==>
      && err == Some(ClassifyInsertError(Exec(tx, fault, step).value, CollectionNameUserKey))
      && tx' == tx.(aborted := true) && unchanged(collection)
    ensures Exec(tx, fault, step).None? && NameTaken(tx.tables, collection.authorId, collection.name) ==>
      err == Some(App(DuplicateEmail)) && tx' == tx.(aborted := true) && unchanged(collection)
    ensures Exec(tx, fault, step).None? && !NameTaken(tx.tables, collection.authorId, collection.name) ==>
      && err == None
      && tx' == tx.(tables := InsertCollectionRow(tx.tables, collection.authorId, collection.name,
                                                  collection.description, collection.poster, tx.now))
      && collection.id == tx.tables.nextCollectionId
      && collection.createdAt == tx.now && collection.updatedAt == tx.now
  {
    var e := Exec(tx, fault, step);
    if e.None? && NameTaken(tx.tables, collection.authorId, collection.name) {
      e := Some(Driver(CollectionNameUserKey));
    }
    if e.Some? {
      tx', err := tx.(aborted := true), Some(ClassifyInsertError(e.value, CollectionNameUserKey));
      assert Sound(tx');
      return;
    }
    InsertCollectionKeeps(tx.tables, collection.authorId, collection.name, collection.description, collection.poster, tx.now);
    var t := InsertCollectionRow(tx.tables, collection.authorId, collection.name, collection.description, collection.poster, tx.now);
    collection.id, collection.createdAt, collection.updatedAt := tx.tables.nextCollectionId, tx.now, tx.now;
    tx', err := tx.(tables := t), None;
    assert Sound(tx');
  }

  /** updateCollection: apply the patch to `collection` in place, then write
      its name, description and poster back and scan the new updated_at.
      Every failure is ErrInternal. A missing row is sql.ErrNoRows on the
      client and leaves the transaction usable; a name clash is a server
      error and aborts it. */
  method UpdateCollectionRow(tx: Tx, collection: Collection, patch: CollectionPatch, fault: Fault, step: nat)
    returns (tx': Tx, err: Option<Error>)
    requires Sound(tx)
    modifies collection`name, collection`description, collection`poster, collection`updatedAt
    ensures Sound(tx') && tx'.now == tx.now
    ensures collection.name == PatchValue(patch.name, old(collection.name))
    ensures collection.description == PatchValue(patch.description, old(collection.description))
    ensures collection.poster == PatchValue(patch.poster, old(collection.poster))
    ensures err.Some? <==>
      Exec(tx, fault, step).Some? || !HasCollection(tx.tables, collection.id) || RenameClashes(tx.tables, collection.id, collection.name)
    ensures err.Some? ==>
      && err == Some(App(Internal)) && tx'.tables == tx.tables
      && collection.updatedAt == old(collection.updatedAt)
      && (tx'.aborted <==> Exec(tx, fault, step).Some? || RenameClashes(tx.tables, collection.id, collection.name))
    ensures err.None? ==>
      && tx' == tx.(tables := SetCollectionFields(tx.tables, collection.id, collection.name,
                                                  collection.description, collection.poster, tx.now))
      && collection.updatedAt == tx.now
  {
    collection.name, collection.description, collection.poster :=
      PatchValue(patch.name, collection.name),
      PatchValue(patch.description, collection.description),
      PatchValue(patch.poster, collection.poster);
    var e := Exec(tx, fault, step);
    if e.Some? || RenameClashes(tx.tables, collection.id, collection.name) {
      tx', err := tx.(aborted := true), Some(App(Internal));
      assert Sound(tx');
      return;
    }
    if !HasCollection(tx.tables, collection.id) {
      return tx, Some(App(Internal));
    }
    SetCollectionKeeps(tx.tables, collection.id, collection.name, collection.description, collection.poster, tx.now);
    var t := SetCollectionFields(tx.tables, collection.id, collection.name, collection.description, collection.poster, tx.now);
    collection.updatedAt := tx.now;
    tx', err := tx.(tables := t), None;
    assert Sound(tx');
  }

  /** markCollectionUpdate: set updated_at = NOW() and scan it back. A
      missing row is sql.ErrNoRows, which does not abort the transaction. */
  method MarkCollectionUpdate(tx: Tx, collection: Collection, fault: Fault, step: nat) returns (tx': Tx, err: Option<Error>)
    requires Sound(tx)
    modifies collection`updatedAt
    ensures Sound(tx') && tx'.now == tx.now
    ensures Exec(tx, fault, step).Some? ==>
      err == Exec(tx, fault, step) && tx' == tx.(aborted := true) && unchanged(collection)
    ensures Exec(tx, fault, step).None? && !HasCollection(tx.tables, collection.id) ==>
      err == Some(Driver(NoRowsMessage)) && tx' == tx && unchanged(collection)
    ensures Exec(tx, fault, step).None? && HasCollection(tx.tables, collection.id) ==>
      && err == None && tx' == tx.(tables := TouchCollection(tx.tables, collection.id, tx.now))
      && collection.updatedAt == tx.now
  {
    err := Exec(tx, fault, step);
    if err.Some? {
      tx' := tx.(aborted := true);
      assert Sound(tx');
      return;
    }
    if !HasCollection(tx.tables, collection.id) {
      return tx, Some(Driver(NoRowsMessage));
    }
    var t := TouchCollection(tx.tables, collection.id, tx.now);
    TouchCollectionKeeps(tx.tables, collection.id, tx.now);
    collection.updatedAt := tx.now;
    tx' := tx.(tables := t);
    assert Sound(tx');
    err := None;
  }

  /** saveToCollection: insert the (path, collection) row, scanning its
      created_at into the collection's UpdatedAt, then mark the collection
      updated at round trip `step + 1`, whose error is dropped. A failed
      insert (including the duplicate row) is ErrInternal. */
  method SaveToCollection(tx: Tx, collection: Collection, imgPath: string, fault: Fault, step: nat)
    returns (tx': Tx, err: Option<Error>)
    requires Sound(tx)
    modifies collection`updatedAt
    ensures Sound(tx') && tx'.now == tx.now
    ensures Exec(tx, fault, step).Some? || ImageSaved(tx.tables, imgPath, collection.id) ==>
      err == Some(App(Internal)) && tx' == tx.(aborted := true) && unchanged(collection)
    ensures Exec(tx, fault, step).None? && !ImageSaved(tx.tables, imgPath, collection.id) ==>
      && err == None && collection.updatedAt == tx.now
      && tx'.aborted == fault.At(step + 1).Some?
      && var added := AddImage(tx.tables, imgPath, collection.id, tx.now);
         tx'.tables == if fault.At(step + 1).None? && HasCollection(tx.tables, collection.id)
                       then TouchCollection(added, collection.id, tx.now) else added
  {
    var e := Exec(tx, fault, step);
    if e.Some? || ImageSaved(tx.tables, imgPath, collection.id) {
      tx', err := tx.(aborted := true), Some(App(Internal));
      assert Sound(tx');
      return;
    }
    AddImageKeeps(tx.tables, imgPath, collection.id, tx.now);
    collection.updatedAt := tx.now;
    var markErr;
    tx', markErr := MarkCollectionUpdate(tx.(tables := AddImage(tx.tables, imgPath, collection.id, tx.now)), collection, fault, step + 1);
    err := None;
  }

  /** removeFromCollection: delete the (path, collection) row, which is no
      error when there is none, then mark the collection updated at round
      trip `step + 1`, whose error is dropped. */
  method RemoveFromCollection(tx: Tx, collection: Collection, imgPath: string, fault: Fault, step: nat)
    returns (tx': Tx, err: Option<Error>)
    requires Sound(tx)
    modifies collection`updatedAt
    ensures Sound(tx') && tx'.now == tx.now
    ensures Exec(tx, fault, step).Some? ==>
      err == Some(App(Internal)) && tx' == tx.(aborted := true) && unchanged(collection)
    ensures Exec(tx, fault, step).None? ==>
      && err == None
      && tx'.aborted == fault.At(step + 1).Some?
      && var removed := RemoveImage(tx.tables, imgPath, collection.id);
         tx'.tables == if fault.At(step + 1).None? && HasCollection(tx.tables, collection.id)
                       then TouchCollection(removed, collection.id, tx.now) else removed
    ensures Exec(tx, fault, step).None? ==>
      collection.updatedAt ==
        if fault.At(step + 1).None? && HasCollection(tx.tables, collection.id) then tx.now else old(collection.updatedAt)
  {
    var e := Exec(tx, fault, step);
    if e.Some? {
      tx', err := tx.(aborted := true), Some(App(Internal));
      assert Sound(tx');
      return;
    }
    RemoveImageKeeps(tx.tables, imgPath, collection.id, tx.now);
    var markErr;
    tx', markErr := MarkCollectionUpdate(tx.(tables := RemoveImage(tx.tables, imgPath, collection.id)), collection, fault, step + 1);
    err := None;
  }

  /** deleteCollection: DELETE FROM collections WHERE id; deleting no row is
      no error. */
  method DeleteCollectionRow(tx: Tx, id: int, fault: Fault, step: nat) returns (tx': Tx, err: Option<Error>)
    requires Sound(tx)
    ensures Sound(tx')
    ensures Exec(tx, fault, step).Some? ==> err == Some(App(Internal)) && tx' == tx.(aborted := true)
    ensures Exec(tx, fault, step).None? ==> err == None && tx' == tx.(tables := DeleteCollectionRows(tx.tables, id))
  {
    var e := Exec(tx, fault, step);
    if e.Some? {
      tx', err := tx.(aborted := true), Some(App(Internal));
      assert Sound(tx');
      return;
    }
    DeleteCollectionKeeps(tx.tables, id, tx.now);
    tx', err := tx.(tables := DeleteCollectionRows(tx.tables, id)), None;
    assert Sound(tx');
  }

  // ---- CollectionService: each call in its own transaction ----

  /** The service over one database connection. Each method numbers its
      round trips from 0 in the order they happen: BeginTxx, the
      statements, Commit; a nested CollectionByID takes three numbers of its
      own. */
  class CollectionService {
    const db: DB

    /** NewCollectionService. */
    constructor (db: DB)
      ensures this.db == db
    {
      this.db := db;
    }

    /** CreateCollection: begin and commit errors are returned unchanged,
        insert errors as createCollection maps them; the row is stored only
        when Commit succeeds. */
    method CreateCollection(collection: Collection, fault: Fault) returns (err: Option<Error>)
      requires db.Valid()
      modifies db`clock, db`committed, collection`id, collection`createdAt, collection`updatedAt
      ensures db.Valid() && old(db.clock) <= db.clock
      ensures err.Some? ==> db.committed == old(db.committed)
      ensures fault.At(0).Some? ==> err == fault.At(0) && unchanged(collection)
      ensures fault.At(0).None? && fault.At(1).Some? ==>
        err == Some(ClassifyInsertError(fault.At(1).value, CollectionNameUserKey)) && unchanged(collection)
      ensures !fault.Before(2) && NameTaken(old(db.committed), collection.authorId, collection.name) ==>
        err == Some(App(DuplicateEmail)) && unchanged(collection)
      ensures !fault.Before(2) && !NameTaken(old(db.committed), collection.authorId, collection.name) ==>
        && err == fault.At(2)
        && collection.id == old(db.committed).nextCollectionId
        && collection.createdAt == old(db.clock) + 1 && collection.updatedAt == old(db.clock) + 1
        && (err.None? ==> db.committed == InsertCollectionRow(old(db.committed), collection.authorId, collection.name,
                                                              collection.description, collection.poster, old(db.clock) + 1))
    {
      var begun := db.Begin(fault, 0);
      if begun.Err? {
        return Some(begun.error);
      }
      var tx := begun.value;
      tx, err := CreateCollectionRow(tx, collection, fault, 1);
      if err.Some? {
        return err;
      }
      err := db.Commit(tx, fault, 2);
    }

    /** CollectionByID: the row with that id; begin, query and commit errors
        unchanged, ErrNotFound when there is no such row. Nothing is written. */
    method CollectionByID(id: int, fault: Fault) returns (r: Result<CollectionRow>)
      requires db.Valid()
      modifies db`clock, db`committed
      ensures db.Valid() && db.committed == old(db.committed)
      ensures db.clock == if fault.At(0).Some? then old(db.clock) else old(db.clock) + 1
      ensures fault.Before(2) ==> r == Err(Driver(fault.message))
      ensures !fault.Before(2) && !HasCollection(db.committed, id) ==> r == Err(App(NotFound))
      ensures !fault.Before(2) && HasCollection(db.committed, id) && fault.At(2).Some? ==> r == Err(fault.At(2).value)
      ensures r.Ok? <==> !fault.Before(3) && HasCollection(db.committed, id)
      ensures r.Ok? ==> r.value in db.committed.collections && r.value.id == id
    {
      var begun := db.Begin(fault, 0);
      if begun.Err? {
        return Err(begun.error);
      }
      var tx := begun.value;
      assert tx.tables == old(db.committed) && tx.now == old(db.clock) + 1;
      tx, r := FindCollectionByID(tx, id, fault, 1);
      if r.Err? {
        return r;
      }
      var err := db.Commit(tx, fault, 2);
      if err.Some? {
        return Err(err.value);
      }
    }

    /** Collections: the rows the filter's query returns; a begin or query
        error gives no rows, and a commit error is returned beside the rows. */
    method Collections(filter: CollectionFilter, fault: Fault) returns (rows: seq<CollectionRow>, err: Option<Error>)
      requires db.Valid()
      modifies db`clock, db`committed
      ensures db.Valid() && db.committed == old(db.committed) && old(db.clock) <= db.clock
      ensures fault.Before(2) ==> rows == [] && err == Some(Driver(fault.message))
      ensures !fault.Before(2) ==> rows == CollectionQuery(db.committed, filter) && err == fault.At(2)
    {
      var begun := db.Begin(fault, 0);
      if begun.Err? {
        return [], Some(begun.error);
      }
      var tx := begun.value;
      var found;
      tx, found := FindCollections(tx, filter, fault, 1);
      if found.Err? {
        return [], Some(found.error);
      }
      err := db.Commit(tx, fault, 2);
      rows := found.value;
    }

    /** UpdateCollection: every failure, a missing row included, is
        ErrInternal and leaves the store as it was. The patch reaches the
        caller's collection as soon as the transaction has begun. */
    method UpdateCollection(collection: Collection, patch: CollectionPatch, fault: Fault) returns (err: Option<Error>)
      requires db.Valid()
      modifies db`clock, db`committed
      modifies collection`name, collection`description, collection`poster, collection`updatedAt
      ensures db.Valid() && old(db.clock) <= db.clock
      ensures err.Some? ==> err == Some(App(Internal)) && db.committed == old(db.committed)
      ensures fault.At(0).Some? ==> err.Some? && unchanged(collection)
      ensures fault.At(0).None? ==>
        && collection.name == PatchValue(patch.name, old(collection.name))
        && collection.description == PatchValue(patch.description, old(collection.description))
        && collection.poster == PatchValue(patch.poster, old(collection.poster))
      ensures err.None? <==>
        && !fault.Before(3) && HasCollection(old(db.committed), collection.id)
        && !RenameClashes(old(db.committed), collection.id, collection.name)
      ensures err.None? ==>
        && db.committed == SetCollectionFields(old(db.committed), collection.id, collection.name,
                                               collection.description, collection.poster, old(db.clock) + 1)
        && collection.updatedAt == old(db.clock) + 1
      ensures fault.At(0).None? ==>
        collection.updatedAt ==
          if fault.At(1).None? && HasCollection(old(db.committed), collection.id)
             && !RenameClashes(old(db.committed), collection.id, collection.name)
          then old(db.clock) + 1 else old(collection.updatedAt)
    {
      var begun := db.Begin(fault, 0);
      if begun.Err? {
        return Some(App(Internal));
      }
      var tx := begun.value;
      assert tx.tables == old(db.committed) && tx.now == old(db.clock) + 1;
      tx, err := UpdateCollectionRow(tx, collection, patch, fault, 1);
      if err.Some? {
        return Some(App(Internal));
      }
      err := db.Commit(tx, fault, 2);
      if err.Some? {
        return Some(App(Internal));
      }
    }

    /** The opening shared by DeleteCollection, SaveImageToCollection and
        DeleteImageFromCollection: BeginTxx (round trip 0), then a separate
        CollectionByID call in its own transaction (round trips 1 to 3).
        Returns the open transaction and the row found, or None when any of
        these fails or the collection does not exist. */
    method BeginAndFind(id: int, fault: Fault) returns (r: Option<(Tx, CollectionRow)>)
      requires db.Valid()
      modifies db`clock, db`committed
      ensures db.Valid() && db.committed == old(db.committed) && old(db.clock) <= db.clock
      ensures r.Some? <==> !fault.Before(4) && HasCollection(old(db.committed), id)
      ensures r.Some? ==>
        && r.value.0 == Tx(old(db.committed), old(db.clock) + 1, false)
        && Sound(r.value.0) && r.value.0.now <= db.clock
        && r.value.1 in old(db.committed).collections && r.value.1.id == id
    {
      var begun := db.Begin(fault, 0);
      if begun.Err? {
        return None;
      }
      var tx := begun.value;
      assert tx.tables == old(db.committed) && tx.now == old(db.clock) + 1;
      var found := CollectionByID(id, fault.Shift(1));
      if found.Err? {
        return None;
      }
      return Some((tx, found.value));
    }

    /** DeleteCollection: checks existence through a separate CollectionByID
        call (round trips 1 to 3), then deletes at 4 and commits at 5. Every
        failure, a missing collection included, is ErrInternal. */
    method DeleteCollection(id: int, fault: Fault) returns (err: Option<Error>)
      requires db.Valid()
      modifies db`clock, db`committed
      ensures db.Valid() && old(db.clock) <= db.clock
      ensures err.Some? ==> err == Some(App(Internal)) && db.committed == old(db.committed)
      ensures err.None? <==> !fault.Before(6) && HasCollection(old(db.committed), id)
      ensures err.None? ==> db.committed == DeleteCollectionRows(old(db.committed), id)
    {
      var start := BeginAndFind(id, fault);
      if start.None? {
        return Some(App(Internal));
      }
      var tx := start.value.0;
      tx, err := DeleteCollectionRow(tx, id, fault, 4);
      if err.Some? {
        return Some(App(Internal));
      }
      err := db.Commit(tx, fault, 5);
      if err.Some? {
        return Some(App(Internal));
      }
    }

    /** SaveImageToCollection: looks the collection up through CollectionByID
        (round trips 1 to 3), inserts the image row at 4, marks the
        collection updated at 5 and commits at 6. Every failure is
        ErrInternal; on success the image row and the new updated_at are
        both stored, stamped with the transaction's NOW(). */
    method SaveImageToCollection(collectionId: int, image: string, fault: Fault) returns (err: Option<Error>)
      requires db.Valid()
      modifies db`clock, db`committed
      ensures db.Valid() && old(db.clock) <= db.clock
      ensures err.Some? ==> err == Some(App(Internal)) && db.committed == old(db.committed)
      ensures err.None? <==>
        !fault.Before(7) && HasCollection(old(db.committed), collectionId) && !ImageSaved(old(db.committed), image, collectionId)
      ensures err.None? ==>
        db.committed == TouchCollection(AddImage(old(db.committed), image, collectionId, old(db.clock) + 1),
                                        collectionId, old(db.clock) + 1)
    {
      var start := BeginAndFind(collectionId, fault);
      if start.None? {
        return Some(App(Internal));
      }
      var tx, row := start.value.0, start.value.1;
      var collection := new Collection(row.id, row.authorId, row.name, row.description, row.poster, [], row.createdAt, row.updatedAt);
      var added := AddImage(tx.tables, image, collectionId, old(db.clock) + 1);
      tx, err := SaveToCollection(tx, collection, image, fault, 4);
      if err.Some? {
        return Some(App(Internal));
      }
      assert tx.aborted <==> fault.At(5).Some?;
      assert !tx.aborted ==> tx.tables == TouchCollection(added, collectionId, old(db.clock) + 1);
      err := db.Commit(tx, fault, 6);
      if err.Some? {
        return Some(App(Internal));
      }
    }

    /** DeleteImageFromCollection: the same sequence with the image row
        deleted at 4. A path that is not in the collection is no error, and
        the collection's updated_at still moves. */
    method DeleteImageFromCollection(collectionId: int, imagePath: string, fault: Fault) returns (err: Option<Error>)
      requires db.Valid()
      modifies db`clock, db`committed
      ensures db.Valid() && old(db.clock) <= db.clock
      ensures err.Some? ==> err == Some(App(Internal)) && db.committed == old(db.committed)
      ensures err.None? <==> !fault.Before(7) && HasCollection(old(db.committed), collectionId)
      ensures err.None? ==>
        db.committed == TouchCollection(RemoveImage(old(db.committed), imagePath, collectionId),
                                        collectionId, old(db.clock) + 1)
    {
      var start := BeginAndFind(collectionId, fault);
      if start.None? {
        return Some(App(Internal));
      }
      var tx, row := start.value.0, start.value.1;
      var collection := new Collection(row.id, row.authorId, row.name, row.description, row.poster, [], row.createdAt, row.updatedAt);
      var removed := RemoveImage(tx.tables, imagePath, collectionId);
      tx, err := RemoveFromCollection(tx, collection, imagePath, fault, 4);
      if err.Some? {
        return Some(App(Internal));
      }
      assert tx.aborted <==> fault.At(5).Some?;
      assert !tx.aborted ==> tx.tables == TouchCollection(removed, collectionId, old(db.clock) + 1);
      err := db.Commit(tx, fault, 6);
      if err.Some? {
        return Some(App(Internal));
      }
    }
  }
}
