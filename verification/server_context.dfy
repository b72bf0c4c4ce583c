/** The identity carried in a request's context. A Go context is an
    immutable key-value chain whose newest binding of a key wins; here it is
    a map, and context.WithValue is a map update. */
module ServerContext {
  import opened AppUser

  /** A context key. Go compares keys by dynamic type and value, so the
      server's contextKey("user") differs from a plain string "user" or a key
      of another package. */
  datatype Key = ServerKey(name: string) | ForeignKey(id: int)

  /** A context value as seen by a type assertion: a `*app.User` (possibly
      nil), a `string`, or something else. */
  datatype Value = UserValue(user: User?) | StringValue(s: string) | OtherValue(id: int)

  type Context = map<Key, Value>

  /** The part of an http.Request the model keeps: its context and two
      fields that WithContext copies unchanged. */
  datatype Request = Request(ctx: Context, httpMethod: string, url: string)

  const UserKey: Key := ServerKey("user")
  const TokenKey: Key := ServerKey("token")

  /** `ctx.Value(userKey).(*app.User)` succeeds. */
  predicate HasUser(ctx: Context)
  {
    UserKey in ctx && ctx[UserKey].UserValue?
  }

  /** setContextUser: a copy of the request whose context binds the user key to `u`. */
  function SetContextUser(r: Request, u: User?): (r': Request)
    ensures HasUser(r'.ctx) && UserFromContext(r'.ctx) == u
    ensures UserTokenFromContext(r'.ctx) == UserTokenFromContext(r.ctx)
    ensures forall k :: k != UserKey ==> (k in r'.ctx <==> k in r.ctx)
    ensures forall k :: k != UserKey && k in r.ctx ==> r'.ctx[k] == r.ctx[k]
    ensures r'.httpMethod == r.httpMethod && r'.url == r.url
  {
    r.(ctx := r.ctx[UserKey := UserValue(u)])
  }

  /** userFromContext: the stored user; the source panics when there is
      none, so a caller must have set one. */
  function UserFromContext(ctx: Context): (u: User?)
    requires HasUser(ctx)
    ensures ctx[UserKey] == UserValue(u)
  {
    ctx[UserKey].user
  }

  /** setContextUserToken: a copy of the request whose context binds the
      token key to `token`. */
  function SetContextUserToken(r: Request, token: string): (r': Request)
    ensures UserTokenFromContext(r'.ctx) == token
    ensures HasUser(r'.ctx) == HasUser(r.ctx)
    ensures HasUser(r.ctx) ==> UserFromContext(r'.ctx) == UserFromContext(r.ctx)
    ensures forall k :: k != TokenKey ==> (k in r'.ctx <==> k in r.ctx)
    ensures forall k :: k != TokenKey && k in r.ctx ==> r'.ctx[k] == r.ctx[k]
    ensures r'.httpMethod == r.httpMethod && r'.url == r.url
  {
    r.(ctx := r.ctx[TokenKey := StringValue(token)])
  }

  /** userTokenFromContext: the stored token, or "" when the token key is
      unbound or bound to something that is not a string. */
  function UserTokenFromContext(ctx: Context): (t: string)
    ensures TokenKey !in ctx ==> t == ""
    ensures TokenKey in ctx && ctx[TokenKey].StringValue? ==> t == ctx[TokenKey].s
    ensures TokenKey in ctx && !ctx[TokenKey].StringValue? ==> t == ""
  {
    if TokenKey in ctx && ctx[TokenKey].StringValue? then ctx[TokenKey].s else ""
  }

  /** Setting the user and then the token (the order the middleware would
      use) leaves both readable. */
  lemma BothBindingsReadable(r: Request, u: User?, token: string)
    ensures var r' := SetContextUserToken(SetContextUser(r, u), token);
      HasUser(r'.ctx) && UserFromContext(r'.ctx) == u && UserTokenFromContext(r'.ctx) == token
  {
  }
}
