/**
 * The authentication step every Privy-protected route starts with: a
 * `Bearer` authorization header, the identity provider's verdict on its
 * token (an oracle: `getPrivyUser` answers a user or `null`), and the
 * user sync.
 */
module Auth {
  import opened Wrappers
  import opened Strings
  import opened Store
  import opened Privy

  /** `getPrivyUser`: the identity provider's answer for a token. */
  type Oracle = string -> Option<PrivyUser>

  const BearerPrefix: string := "Bearer "

  /** The token of an `Authorization` header: present only when the header
      is there and starts with "Bearer "; it is the rest of the header. */
  function BearerToken(header: Option<string>): (t: Option<string>)
    ensures t.Some? <==> header.Some? && StartsWith(header.value, BearerPrefix)
    ensures t.Some? ==> header.value == BearerPrefix + t.value
  {
    if header.Some? && StartsWith(header.value, BearerPrefix) then
      assert header.value == header.value[..7] + header.value[7..];
      Some(header.value[7..])
    else None
  }

  /** The header a client builds for a token is read back as that token. */
  lemma BearerRoundTrip(token: string)
    ensures BearerToken(Some(BearerPrefix + token)) == Some(token)
  {
    assert (BearerPrefix + token)[..7] == BearerPrefix;
    assert (BearerPrefix + token)[7..] == token;
  }

  /** A denied request's status, or the caller's user id. */
  datatype AuthResult = Denied(status: int) | Granted(user: Id)

  datatype AuthOutcome = AuthOutcome(result: AuthResult, st: DbState)

  /** The authentication steps: 401 without a Bearer token or when the
      token does not verify; the sync throwing ends in the route's 500. */
  function AuthSpec(st: DbState, oracle: Oracle, header: Option<string>): AuthOutcome
    requires Valid(st)
  {
    match BearerToken(header)
    case None => AuthOutcome(Denied(401), st)
    case Some(token) =>
      match oracle(token)
      case None => AuthOutcome(Denied(401), st)
      case Some(pu) =>
        var r := SyncSpec(st, pu);
        match r.user
        case None => AuthOutcome(Denied(500), r.st)
        case Some(uid) => AuthOutcome(Granted(uid), r.st)
  }

  method Authenticate(db: Db, oracle: Oracle, header: Option<string>) returns (result: AuthResult)
    requires Valid(db.State())
    modifies db
    ensures AuthOutcome(result, db.State()) == AuthSpec(old(db.State()), oracle, header)
  {
    var token := BearerToken(header);
    if token.None? {
      return Denied(401);
    }
    var pu := oracle(token.value);
    if pu.None? {
      return Denied(401);
    }
    var user := SyncPrivyUser(db, pu.value);
    if user.None? {
      return Denied(500);
    }
    result := Granted(user.value);
  }

  /** Authentication keeps the invariant, grants access only to a verified
      Bearer token, and grants it as a user row that exists and holds the
      verified Privy id. */
  lemma AuthSound(st: DbState, oracle: Oracle, header: Option<string>)
    requires Valid(st)
    ensures var a := AuthSpec(st, oracle, header);
      && Valid(a.st)
      && a.st == st.(users := a.st.users, accounts := a.st.accounts, nextId := a.st.nextId)
      && st.users.Keys <= a.st.users.Keys
      && (a.result.Granted? ==>
            && BearerToken(header).Some?
            && oracle(BearerToken(header).value).Some?
            && a.result.user in a.st.users
            && a.st.users[a.result.user].privyId == oracle(BearerToken(header).value).value.id)
      && (a.result.Denied? ==> a.result.status in {401, 500})
      && (BearerToken(header).None? ==> a == AuthOutcome(Denied(401), st))
  {
    if BearerToken(header).Some? && oracle(BearerToken(header).value).Some? {
      SyncPreservesValid(st, oracle(BearerToken(header).value).value);
    }
  }

  /** A caller granted once is granted as the same user in any later state
      that still holds their row. */
  lemma AuthAgain(st: DbState, oracle: Oracle, header: Option<string>, st1: DbState)
    requires Valid(st) && Valid(st1)
    requires AuthSpec(st, oracle, header).result.Granted?
    requires var a := AuthSpec(st, oracle, header);
      a.result.user in st1.users && st1.users[a.result.user].privyId == a.st.users[a.result.user].privyId
    ensures AuthSpec(st1, oracle, header).result == AuthSpec(st, oracle, header).result
  {
    AuthSound(st, oracle, header);
    var pu := oracle(BearerToken(header).value).value;
    SyncedIdOf(st1, pu.id, AuthSpec(st, oracle, header).result.user);
  }
}
