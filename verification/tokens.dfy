/** `TokenStore` and `UserTokenInfo` (mcp-blob-server/TokenStore.cs): a process-wide
    dictionary from session id to the tokens of the signed-in user.  The lock only
    makes each operation atomic, so the store is modelled as a value and every
    operation as a function from the store before to the store after. */
module Tokens {
  import opened Wrappers

  /** The tokens held for one session.  `expiry` is a `DateTime` counted in ticks;
      the default `DateTime` is `DateTime.MinValue`, tick 0. */
  datatype UserTokenInfo = UserTokenInfo(
    accessToken: string,
    refreshToken: string,
    idToken: string,
    expiry: int)

  /** `new UserTokenInfo()`: every property at its initializer or default. */
  function NewUserTokenInfo(): (t: UserTokenInfo)
    ensures t.accessToken == [] && t.refreshToken == [] && t.idToken == []
    ensures t.expiry == 0
  {
    UserTokenInfo("", "", "", 0)
  }

  datatype TokenStore = TokenStore(entries: map<string, UserTokenInfo>)

  /** The store as the process starts it: no session has a token. */
  const Empty := TokenStore(map[])

  /** `GetToken`: the token saved for the session, or null. */
  function GetToken(store: TokenStore, sessionId: string): (r: Option<UserTokenInfo>)
    ensures r.Some? <==> sessionId in store.entries
    ensures r.Some? ==> r.value == store.entries[sessionId]
  {
    if sessionId in store.entries then Some(store.entries[sessionId]) else None
  }

  /** `SaveToken`: inserts or replaces the entry of one session. */
  function SaveToken(store: TokenStore, sessionId: string, token: UserTokenInfo): (after: TokenStore)
    ensures GetToken(after, sessionId) == Some(token)
    ensures forall k :: k != sessionId ==> GetToken(after, k) == GetToken(store, k)
    ensures after.entries.Keys == store.entries.Keys + {sessionId}
  {
    TokenStore(store.entries[sessionId := token])
  }

  /** `RemoveToken`: deletes the entry of one session if there is one. */
  function RemoveToken(store: TokenStore, sessionId: string): (after: TokenStore)
    ensures GetToken(after, sessionId) == None
    ensures forall k :: k != sessionId ==> GetToken(after, k) == GetToken(store, k)
    ensures after.entries.Keys == store.entries.Keys - {sessionId}
  {
    TokenStore(store.entries - {sessionId})
  }

  /** A session that was never saved has no token. */
  lemma NeverSavedIsAbsent(sessionId: string)
    ensures GetToken(Empty, sessionId) == None
  {
  }

  /** Last write wins: a second save to the same session replaces the first. */
  lemma SaveOverwrites(store: TokenStore, sessionId: string, first: UserTokenInfo, second: UserTokenInfo)
    ensures SaveToken(SaveToken(store, sessionId, first), sessionId, second)
            == SaveToken(store, sessionId, second)
  {
  }

  /** No cross-talk: saves to different sessions commute, each read seeing its own. */
  lemma SavesToDistinctSessionsCommute(store: TokenStore, k1: string, t1: UserTokenInfo,
                                       k2: string, t2: UserTokenInfo)
    requires k1 != k2
    ensures SaveToken(SaveToken(store, k1, t1), k2, t2) == SaveToken(SaveToken(store, k2, t2), k1, t1)
    ensures GetToken(SaveToken(SaveToken(store, k1, t1), k2, t2), k1) == Some(t1)
    ensures GetToken(SaveToken(SaveToken(store, k1, t1), k2, t2), k2) == Some(t2)
  {
  }

  /** Removing an absent session changes nothing; removing twice is removing once. */
  lemma RemoveAbsentIsNoOp(store: TokenStore, sessionId: string)
    ensures GetToken(store, sessionId) == None ==> RemoveToken(store, sessionId) == store
    ensures RemoveToken(RemoveToken(store, sessionId), sessionId) == RemoveToken(store, sessionId)
  {
  }

  /** Removing right after saving undoes the save entirely. */
  lemma RemoveUndoesSave(store: TokenStore, sessionId: string, token: UserTokenInfo)
    ensures RemoveToken(SaveToken(store, sessionId, token), sessionId) == RemoveToken(store, sessionId)
    ensures GetToken(store, sessionId) == None ==>
      RemoveToken(SaveToken(store, sessionId, token), sessionId) == store
  {
  }

  // ---------------------------------------------------------------------------
  // Sequences of calls.

  datatype StoreOp =
    | Save(sessionId: string, token: UserTokenInfo)
    | Get(sessionId: string)
    | Remove(sessionId: string)

  /** The store after one call; `GetToken` leaves it as it was. */
  function Apply(store: TokenStore, op: StoreOp): TokenStore {
    match op
    case Save(k, t) => SaveToken(store, k, t)
    case Get(_) => store
    case Remove(k) => RemoveToken(store, k)
  }

  /** The store after a sequence of calls, oldest first. */
  function Replay(store: TokenStore, ops: seq<StoreOp>): TokenStore
    decreases |ops|
  {
    if ops == [] then store else Apply(Replay(store, ops[..|ops| - 1]), ops[|ops| - 1])
  }

  /** Reference definition: the most recent save or remove of `sessionId`. */
  function LastWrite(ops: seq<StoreOp>, sessionId: string): Option<StoreOp>
    decreases |ops|
  {
    if ops == [] then None
    else
      var op := ops[|ops| - 1];
      if !op.Get? && op.sessionId == sessionId then Some(op)
      else LastWrite(ops[..|ops| - 1], sessionId)
  }

  /** The token a session holds after a sequence of calls is decided by the last
      save or remove of that session alone: reads and calls on other sessions do
      not matter. */
  lemma {:induction false} ReplayLastWriteWins(store: TokenStore, ops: seq<StoreOp>, sessionId: string)
    ensures GetToken(Replay(store, ops), sessionId) ==
      match LastWrite(ops, sessionId)
      case None => GetToken(store, sessionId)
      case Some(op) => if op.Save? then Some(op.token) else None
    decreases |ops|
  {
    if ops != [] {
      ReplayLastWriteWins(store, ops[..|ops| - 1], sessionId);
    }
  }

  /** `LastWrite` returns one of the calls, and one on the session asked about. */
  lemma {:induction false} LastWriteIsInOps(ops: seq<StoreOp>, sessionId: string)
    ensures LastWrite(ops, sessionId).Some? ==>
      LastWrite(ops, sessionId).value in ops && LastWrite(ops, sessionId).value.sessionId == sessionId
    decreases |ops|
  {
    if ops != [] {
      LastWriteIsInOps(ops[..|ops| - 1], sessionId);
    }
  }

  /** Starting from an empty store, whatever a session reads was saved under it by
      one of the calls: the store never invents or tears a token. */
  lemma ReadValueWasWritten(ops: seq<StoreOp>, sessionId: string, token: UserTokenInfo)
    requires GetToken(Replay(Empty, ops), sessionId) == Some(token)
    ensures Save(sessionId, token) in ops
  {
    ReplayLastWriteWins(Empty, ops, sessionId);
    LastWriteIsInOps(ops, sessionId);
  }
}
