# posterify-backend data access core, in Dafny

This project models the persistence and identity core of the posterify
backend, a Go service that stores users, their poster collections and the
images saved to each collection in PostgreSQL.

- **Errors** (`errors.dfy`): the six sentinel errors of the `app` package.
  It also holds the driver errors the code compares against. It holds the
  switch that turns the exact unique-violation text into a duplicate error.
- **Patch** (`patch.dfy`): how a set field of a collection or user patch
  replaces the current value and a nil field keeps it.
- **Sql** (`sql.dfy`): what a translated filter means once the server runs
  it. A list of `column = $k` fragments is joined by AND, with positional
  arguments. Rows come back in primary-key order, then LIMIT/OFFSET
  applies. The where-list stays structured (column name and placeholder
  number), so no caller value can reach the query text.
- **Db** (`db.dfy`): the store as the postgres package sees it.
  - Three tables: users, collections and collections_images.
  - The schema's keys and unique constraints, as the invariant `WellFormed`.
  - A clock standing for `NOW()`.
  - A `DB` class whose `Begin` and `Commit` open a transaction and publish
    it. A transaction's writes reach the committed tables only when
    `Commit` succeeds.
  - PostgreSQL's aborted-transaction rule: after a failed statement, every
    later statement is refused and the commit fails.
  - A failure of the server or connection is a `Fault`. This is an input
    naming the one round trip (begin, statement or commit) that fails, and
    the driver text it fails with.
- **AppCollection** and **AppUser** (`app_collection.dfy`, `app_user.dfy`):
  the in-memory `Collection`, `Image` and `User` objects.
  - These are classes, because the Go code compares their addresses and
    updates them in place.
  - Filters and patches are modelled as datatypes.
  - bcrypt is an abstract pair of functions.
- **PostgresCollection** and **PostgresUser** (`postgres_collection.dfy`,
  `postgres_user.dfy`): each package-level statement function is a method
  on an open transaction, and each service method is a method of
  `CollectionService` or `UserService`. Every one states:
  - its error for each failing round trip;
  - the error it classifies or returns;
  - the exact committed state it leaves.
- **ServerContext** (`server_context.dfy`): how the request context carries
  the authenticated user and the bearer token.

Behaviour of the code worth knowing, which the model reproduces:
- `findCollections` never translates `AuthorId`: a filter's author predicate is dropped (`AuthorIdIgnored`).
- A duplicate image save in `CollectionService.SaveImageToCollection` comes back as `ErrInternal`, not as an "already saved" error. This relies on the images table being unique on (collection_id, img_path), which the model assumes (see "Left out").
- Removing an image that is not in the collection succeeds and still advances the collection's `updated_at`.
- A duplicate collection name is reported as `ErrDuplicateEmail`, the only duplicate sentinel the code has.
- No ownership check is made anywhere in this code. The model adds none.

## Model

| member | source | states |
|---|---|---|
| Errors.ClassifyInsertError | postgres/collection.go:208-215 | exactly the violation text becomes ErrDuplicateEmail; every other error is returned unchanged |
| Sql.Page | postgres/collection.go:251-252 | LIMIT/OFFSET: the rows from `offset` on, at most `limit` of them; zero means no limit and no skip; past the end gives no rows |
| Sql.KeepPairwise | postgres/collection.go:251-252 | filtering preserves row order, so ORDER BY id ASC and the unique columns hold of every selection |
| Sql.KeepComplete | postgres/collection.go:251-252 | the WHERE filter drops no row that satisfies it |
| Sql.PagePairwise | postgres/collection.go:251-252 | a page is a run of the ordered result: it is still ordered and contains only result rows |
| Sql.NumberedMeaning | postgres/collection.go:238-252 | fragments numbered $1.. with aligned arguments hold of a row iff every translated predicate holds (both directions) |
| Db.DeleteUserRowsEffect | postgres/user.go:147-152 | DELETE FROM users WHERE id removes exactly the rows with that id and nothing from the other tables |
| Db.DeleteCollectionRowsEffect | postgres/collection.go:355-360 | DELETE FROM collections WHERE id removes exactly the rows with that id and leaves users and images alone |
| Db.InsertUserKeeps | postgres/user.go:166-171 | an insert whose email is free keeps the keys and users_email_key valid and every timestamp at or before NOW() |
| Db.SetUserKeeps | postgres/user.go:241-247 | an update whose email clashes with no other row keeps the schema invariant |
| Db.DeleteUserKeeps | postgres/user.go:147-152 | deleting users keeps the schema invariant |
| Db.InsertCollectionKeeps | postgres/collection.go:201-206 | an insert whose (author, name) is free keeps the keys and collection_name_user_key valid |
| Db.SetCollectionKeeps | postgres/collection.go:283-289 | a rename that clashes with no sibling keeps the schema invariant |
| Db.TouchCollectionKeeps | postgres/collection.go:188-193 | advancing updated_at keeps the schema invariant |
| Db.DeleteCollectionKeeps | postgres/collection.go:355-360 | deleting collections keeps the schema invariant |
| Db.AddImageKeeps | postgres/collection.go:314-319 | adding an image not yet saved keeps (collection_id, img_path) unique |
| Db.RemoveImageKeeps | postgres/collection.go:335-340 | removing image rows keeps the schema invariant |
| Db.DB.Begin | postgres/collection.go:21-27 | BeginTxx: a failed begin returns the driver error; otherwise a live transaction over the committed tables whose NOW() is a new clock tick |
| Db.DB.Commit | postgres/collection.go:33 | Commit publishes the transaction's tables iff it succeeds; an aborted transaction fails to commit; the invariant is kept |
| AppCollection.Image.constructor | app/collection.go:74-77 | the new image has the given path and collection id and a zero SavedAt |
| AppCollection.Collection.Project | app/collection.go:26-33 | a new collection with ID, AuthorID, Name and Poster copied and every other field zero |
| AppCollection.Collection.ProjectWithImages | app/collection.go:35-43 | the same projection sharing this collection's image list |
| AppCollection.IsSaved | app/collection.go:45-55 | isSaved holds iff the pointer is the address of a member image's Path field, never for an empty list |
| AppCollection.CellNeverSaved | app/collection.go:45-55 | a pointer to any other string variable is never saved, whatever its text |
| AppCollection.Collection.SaveImageToCollection | app/collection.go:72-82 | when not saved: append one fresh image with `*imgPath` and this id, keep the old images, return this; otherwise ErrImageAlreadySaved and no change |
| AppCollection.IsSavedByValue | app/collection.go:45-55 | corrected test: true iff some image's path equals `*imgPath` |
| AppCollection.Collection.SaveImageIfAbsent | app/collection.go:72-82 | corrected save: refuses a path already present; keeps image paths distinct |
| AppCollection.Collection.DeleteImageFromCollection | app/collection.go:84-93 | succeeds iff some image has the path, else ErrImageNotSaved; the image list is unchanged either way |
| AppCollection.Collection.RemoveFirstImageWithPath | app/collection.go:84-93 | corrected delete: removes exactly the first image with the path and keeps the rest in order |
| AppCollection.SlicesDelete | app/collection.go:87 | slices.Delete(s, i, j) keeps s[:i] and shifts s[j:] down by j-i |
| AppCollection.SlicesDeleteEmptyRange | app/collection.go:87 | deleting the range [i, i) returns the slice unchanged |
| AppCollection.SaveTwiceThenDelete | app/collection.go:72-93 | saving one request field twice stores two images with the same path, and a delete leaves both |
| AppCollection.SaveTwiceByValue | app/collection.go:72-93 | with the corrected members the second save is refused and the delete leaves no image |
| AppUser.SetThenVerify | app/user.go:42-60 | with a hasher whose comparison accepts its own hashes, a successful SetPassword makes VerifyPassword accept that password on the same user, and the other fields stay as they were |
| AppUser.User.constructor | app/user.go:11-18 | the new user holds exactly the given fields |
| AppUser.User.Project | app/user.go:20-25 | a new user carrying only ID and Email, every other field zero |
| AppUser.User.SetPassword | app/user.go:42-53 | a hashing error is returned and the old hash kept; otherwise the new hash is stored |
| AppUser.User.VerifyPassword | app/user.go:55-60 | accepts a password whenever the stored hash is one that an agreeing hasher produced for it |
| AppUser.User.IsAnonymous | app/user.go:62-64 | holds only for a user whose every field equals AnonymousUser's |
| AppUser.AnonymityIsIdentity | app/user.go:62-64 | AnonymousUser itself is anonymous; a separately allocated user with identical fields is not, and neither is its User() projection |
| ServerContext.SetContextUser | server/context.go:17-20 | the new request's context yields the user, keeps the token and every other binding, and keeps the method and URL |
| ServerContext.SetContextUserToken | server/context.go:32-35 | the new request's context yields the token, keeps the user and every other binding |
| ServerContext.UserFromContext | server/context.go:22-30 | the returned user is exactly the one bound under the user key |
| ServerContext.UserTokenFromContext | server/context.go:37-45 | the bound string, or "" when the token key is missing or bound to a non-string |
| ServerContext.BothBindingsReadable | server/context.go:17-45 | after setting the user and then the token, both read back |
| PostgresCollection.TranslateCollectionFilter | postgres/collection.go:237-249 | one fragment per set field (ID, then Name), numbered $1, $2 in order, with aligned arguments; empty iff no field is set |
| PostgresCollection.CollectionFilterMeaning | postgres/collection.go:241-252 | the translated WHERE holds of a row iff the row has the filter's ID and Name |
| PostgresCollection.UnpagedCollectionQuery | postgres/collection.go:251-253 | without LIMIT/OFFSET a row is returned iff it is stored and selected |
| PostgresCollection.CollectionQuerySound | postgres/collection.go:251-253 | every returned row is stored and selected, in ascending id order, on any page |
| PostgresCollection.AuthorIdIgnored | postgres/collection.go:241-249 | the AuthorId field changes neither the translation nor the result |
| PostgresCollection.FirstMatchIsSmallest | postgres/collection.go:224-235 | on the first page (offset 0), which every caller asks for, findOneCollection fails with ErrNotFound iff no row is selected; otherwise it returns the selected row with the smallest id |
| PostgresCollection.LookupById | postgres/collection.go:220-222 | by-id lookup succeeds iff the id exists and then returns that row |
| PostgresCollection.PatchedRowStored | postgres/collection.go:263-289 | after the update the row holds the patched values and a new updated_at, and the other rows survive |
| PostgresCollection.RemovingNonMemberStillTouches | postgres/collection.go:329-346 | removing an absent image changes no image row but still advances updated_at |
| PostgresCollection.FindCollections | postgres/collection.go:237-261 | a failed query aborts the transaction and returns the error; otherwise the query's rows |
| PostgresCollection.FindOneCollection | postgres/collection.go:224-235 | the query error unchanged, ErrNotFound on no rows, otherwise the first row |
| PostgresCollection.FindCollectionByID | postgres/collection.go:220-222 | the row with that id iff it exists, else ErrNotFound |
| PostgresCollection.CreateCollectionRow | postgres/collection.go:200-218 | a name already used by the author gives ErrDuplicateEmail and aborts; otherwise the row is inserted with the next id and NOW(), scanned back into the collection |
| PostgresCollection.UpdateCollectionRow | postgres/collection.go:263-295 | the patch reaches the collection first; a missing row, a name clash or a failure gives ErrInternal and no write; otherwise the row is set and updated_at scanned back |
| PostgresCollection.MarkCollectionUpdate | postgres/collection.go:187-198 | advances updated_at of an existing row; a missing row is sql.ErrNoRows and does not abort |
| PostgresCollection.SaveToCollection | postgres/collection.go:308-327 | inserts the image row and touches the parent; a duplicate or failure gives ErrInternal; the touch's error is ignored |
| PostgresCollection.RemoveFromCollection | postgres/collection.go:329-348 | deletes the image rows for (path, collection) and touches the parent; the touch's error is ignored; a failed DELETE leaves the caller's collection unchanged; otherwise its updatedAt becomes NOW() when the touch succeeds on an existing row and stays as it was when the touch fails |
| PostgresCollection.DeleteCollectionRow | postgres/collection.go:350-366 | deletes the collection rows with that id; a failure gives ErrInternal |
| PostgresCollection.CollectionService.constructor | postgres/collection.go:16-18 | the service wraps the given store |
| PostgresCollection.CollectionService.CreateCollection | postgres/collection.go:20-34 | the begin error unchanged; the insert error classified; the row committed, with the next id, iff begin, insert and commit succeed |
| PostgresCollection.CollectionService.CollectionByID | postgres/collection.go:36-57 | succeeds iff no round trip fails and the id exists, returning that row; ErrNotFound otherwise; driver errors unchanged |
| PostgresCollection.CollectionService.Collections | postgres/collection.go:59-75 | no rows and the error when begin or query fail; otherwise the query's rows, returned with the commit's error |
| PostgresCollection.CollectionService.UpdateCollection | postgres/collection.go:77-98 | succeeds iff no round trip fails, the row exists and the new name is free; then exactly that row is updated; every failure is ErrInternal and commits nothing; once the transaction has begun, the caller's updatedAt is NOW() if the UPDATE succeeded (even when the commit then fails) and unchanged otherwise |
| PostgresCollection.CollectionService.BeginAndFind | postgres/collection.go:130-143 | the shared opening: a live transaction over the committed tables and the collection's row iff begin and the separate CollectionByID call succeed and the id exists; nothing is committed |
| PostgresCollection.CollectionService.DeleteCollection | postgres/collection.go:100-127 | succeeds iff the nested lookup finds the id and no round trip fails; then exactly that collection is gone |
| PostgresCollection.CollectionService.SaveImageToCollection | postgres/collection.go:129-156 | succeeds iff the collection exists, the image is not yet saved and no round trip fails; then the image row is added and updated_at advanced together |
| PostgresCollection.CollectionService.DeleteImageFromCollection | postgres/collection.go:158-185 | succeeds iff the collection exists and no round trip fails; then the image rows go and updated_at advances together |
| PostgresUser.TranslateUserFilter | postgres/user.go:201-213 | one fragment per set field (ID, then Email), numbered $1, $2 in order, with aligned arguments; empty iff no field is set |
| PostgresUser.UserFilterMeaning | postgres/user.go:205-216 | the translated WHERE holds of a row iff the row has the filter's ID and Email |
| PostgresUser.UnpagedUserQuery | postgres/user.go:215-217 | without LIMIT/OFFSET a row is returned iff it is stored and selected |
| PostgresUser.UserQuerySound | postgres/user.go:215-217 | every returned row is stored and selected, in ascending id order, on any page |
| PostgresUser.FirstUserIsSmallest | postgres/user.go:189-199 | on the first page (offset 0), which every caller asks for, findOneUser fails with ErrNotFound iff no row is selected; otherwise it returns the selected row with the smallest id |
| PostgresUser.LookupUserById | postgres/user.go:185-187 | by-id lookup succeeds iff the id exists and then returns that row |
| PostgresUser.LookupUserByEmail | postgres/user.go:69 | since emails are unique, by-email lookup succeeds iff the email is taken and returns that user |
| PostgresUser.QueryUsersError | postgres/user.go:255-266 | sql.ErrNoRows becomes the plain "user not found" error; every other error is returned unchanged |
| PostgresUser.FindUsers | postgres/user.go:201-224 | a failed query aborts the transaction and returns the mapped error; otherwise the query's rows |
| PostgresUser.FindOneUser | postgres/user.go:189-199 | the query error, ErrNotFound on no rows, otherwise the first row |
| PostgresUser.CreateUserRow | postgres/user.go:165-183 | a taken email gives ErrDuplicateEmail and aborts; otherwise the row is inserted with the next id and NOW(), scanned back into the user |
| PostgresUser.UpdateUserRow | postgres/user.go:226-253 | the patch reaches the user first; a missing row, an email clash or a failure gives ErrInternal and no write; otherwise the row is set |
| PostgresUser.UserService.constructor | postgres/user.go:18-20 | the service wraps the given store |
| PostgresUser.UserService.CreateUser | postgres/user.go:22-36 | the begin error unchanged; the insert error classified; the row committed, with the next id, iff begin, insert and commit succeed |
| PostgresUser.UserService.LookupUser | postgres/user.go:38-80 | a read-only transaction: the begin error, the mapped query error, ErrNotFound or the commit error, else the first selected row; nothing committed |
| PostgresUser.UserService.UserByID | postgres/user.go:38-58 | succeeds iff no round trip fails and the id exists, returning that row; ErrNotFound when it does not exist; a begin error is returned as is, a query error as queryUsers wraps it, a commit error as is |
| PostgresUser.UserService.UserByEmail | postgres/user.go:60-80 | succeeds iff no round trip fails and the email is taken, returning that user |
| PostgresUser.UserService.Users | postgres/user.go:82-98 | no rows and the error when begin or query fail; otherwise the query's rows, returned with the commit's error |
| PostgresUser.UserService.Authenticate | postgres/user.go:100-112 | succeeds iff the lookup succeeds and the stored hash matches the password; a found user with a wrong password gives ErrUnAuthorized; a missing email gives ErrNotFound; begin, query and commit errors come back as the lookup returns them |
| PostgresUser.UserService.UpdateUser | postgres/user.go:114-135 | succeeds iff no round trip fails, the row exists and the email is free; then exactly that row is updated; every failure is ErrInternal and commits nothing; once the transaction has begun, the caller's updatedAt is NOW() if the UPDATE succeeded (even when the commit then fails) and unchanged otherwise |
| PostgresUser.UserService.DeleteUser | postgres/user.go:137-163 | succeeds iff no round trip fails, a missing id included; then exactly the rows with that id are gone; failures are ErrInternal |

## Left out

- HTTP routing, handlers, middleware, JSON decoding and the JWT codec are not part of this model. Only the context helpers the middleware uses are modelled.
- bcrypt is two abstract functions (`Generate`, `Compare`). Its cost parameter, salts and error texts are not modelled.
- SQL text, the pq driver, the connection pool and isolation levels are not modelled. UserByEmail's READ COMMITTED is therefore not distinguished.
- `formatWhereClause` and `formatLimitOffset` are not part of this model.
  - WHERE is taken to join fragments with AND.
  - LIMIT/OFFSET are taken as natural numbers, where zero means no limit and no skip.
  - Negative Go ints are not modelled.
- Logging (`log.Println`, `fmt.Println`) is not modelled.
- Serial id sequences are kept inside the transactional tables. PostgreSQL does not roll sequences back, so a failed insert consumes an id that the model does not.
- The images table is assumed unique on (collection_id, img_path). The schema is not part of this model.
- Foreign keys and cascades are not modelled. Deleting a user or collection leaves dependent rows in place.
- A failure of the server or connection hits at most one round trip per service call. The model does not capture later failures once a call has already failed.
- Concurrency between transactions is not modelled; each service call runs alone.
- Timestamps are integers from a clock that ticks on each begin. `time.Time` precision and time zones are not modelled.
- Query results are row values. The freshly allocated `*app.Collection` and `*app.User` objects the scanner fills are not modelled, and a nil slice is not distinguished from an empty one.
- Image lists are value sequences, so the backing array a Go slice shares is not modelled. In Go, the copy `ProjectWithImages` returns shares it with the original. An `append` into spare capacity, and the shift and clearing of the tail that `slices.Delete` performs, can therefore show through such a copy; in the model they do not.
- `userFromContext` panics when no user is bound. The model makes a bound user a precondition (`HasUser`).
- The `sql.ErrNoRows` branch of `queryUsers` cannot be produced by `SelectContext` on an empty result. It is reachable in the model only through an injected fault with that text.
- `AnonymousUser` is passed to `IsAnonymous` as a parameter rather than read as a package variable.

## Findings

| source | as written | input that shows it | evidently intended | confidence | as-written member | corrected member |
|---|---|---|---|---|---|---|
| app/collection.go:45-55 | `isSaved` compares the pointer `imgPath` with `&i.Path`, an address inside the list, so a path read from the request is never "saved" | a collection with no images; save the request's image path twice | the second save fails with ErrImageAlreadySaved and the list holds the path once | not executed | AppCollection.SaveTwiceThenDelete | AppCollection.SaveTwiceByValue |
| app/collection.go:87 | `slices.Delete(c.Images, i, i)` removes the empty range, so the matching image stays | a collection whose one image has path "p"; delete "p" | the image with path "p" is removed | not executed | AppCollection.Collection.DeleteImageFromCollection | AppCollection.Collection.RemoveFirstImageWithPath |
