/**
 * `syncPrivyUserToDb`: the identity provider's user record is turned into
 * a database user row (picking the linked GitHub account and wallet and
 * falling back field by field), then the user and, when a GitHub token is
 * at hand, the GitHub account are upserted.
 *
 * Optional fields keep the JavaScript distinction between a missing
 * property (`Undefined`, which an update leaves alone) and `null` (which
 * clears the column).
 */
module Privy {
  import opened Wrappers
  import opened Strings
  import opened JsValues
  import opened Store

  datatype LinkedAccount = LinkedAccount(
    kind: string,
    subject: Value,
    username: Value,
    name: Value,
    profilePictureUrl: Value,
    avatarUrl: Value,
    accessToken: Value,
    address: Value)

  datatype GithubProfile = GithubProfile(subject: Value, name: Value, username: Value, profilePictureUrl: Value, avatarUrl: Value)

  /** `email` is the value of `email?.address`; `github` is `None` when the
      property is missing. */
  datatype PrivyUser = PrivyUser(
    id: string,
    linkedAccounts: seq<LinkedAccount>,
    email: Value,
    github: Option<GithubProfile>)

  /** The values written to the user row. */
  datatype UserFields = UserFields(name: string, email: Value, username: Value, login: Value, image: Value, walletAddress: Value)

  const AvatarPrefix: string := "https://avatars.githubusercontent.com/u/"
  const AvatarSuffix: string := "?v=4"

  predicate IsGithub(a: LinkedAccount) { a.kind == "github_oauth" || a.kind == "github" }
  predicate IsWallet(a: LinkedAccount) { a.kind == "wallet" || a.kind == "smart_wallet" }

  /** `linkedAccounts.find(...)` for the GitHub account. */
  function FindGithub(accounts: seq<LinkedAccount>): (r: Option<LinkedAccount>)
    ensures r.None? <==> forall i :: 0 <= i < |accounts| ==> !IsGithub(accounts[i])
    ensures r.Some? ==> exists i :: 0 <= i < |accounts| && accounts[i] == r.value && IsGithub(r.value)
                                     && forall j :: 0 <= j < i ==> !IsGithub(accounts[j])
  {
    if accounts == [] then None
    else if IsGithub(accounts[0]) then Some(accounts[0])
    else
      var r := FindGithub(accounts[1..]);
      assert forall i :: 1 <= i < |accounts| ==> accounts[i] == accounts[1..][i - 1];
      r
  }

  /** `linkedAccounts.find(...)` for the wallet. */
  function FindWallet(accounts: seq<LinkedAccount>): (r: Option<LinkedAccount>)
    ensures r.None? <==> forall i :: 0 <= i < |accounts| ==> !IsWallet(accounts[i])
    ensures r.Some? ==> exists i :: 0 <= i < |accounts| && accounts[i] == r.value && IsWallet(r.value)
                                     && forall j :: 0 <= j < i ==> !IsWallet(accounts[j])
  {
    if accounts == [] then None
    else if IsWallet(accounts[0]) then Some(accounts[0])
    else
      var r := FindWallet(accounts[1..]);
      assert forall i :: 1 <= i < |accounts| ==> accounts[i] == accounts[1..][i - 1];
      r
  }

  /** What optional chaining reads on a missing account or profile: every
      property is `undefined`. */
  const NoAccount := LinkedAccount("", Undefined, Undefined, Undefined, Undefined, Undefined, Undefined, Undefined)
  const NoProfile := GithubProfile(Undefined, Undefined, Undefined, Undefined, Undefined)

  function GithubAccount(pu: PrivyUser): LinkedAccount {
    FindGithub(pu.linkedAccounts).GetOr(NoAccount)
  }

  function WalletAccount(pu: PrivyUser): LinkedAccount {
    FindWallet(pu.linkedAccounts).GetOr(NoAccount)
  }

  function GithubProfileOf(pu: PrivyUser): GithubProfile {
    pu.github.GetOr(NoProfile)
  }

  /** `String(v)`, the text a template literal inserts. */
  function TextOf(v: Value): string {
    match v
    case Undefined => "undefined"
    case Null => "null"
    case Bool(b) => if b then "true" else "false"
    case Num(n) => NumberToString(n)
    case Str(s) => s
  }

  /** `email?.address?.split("@")[0]`. */
  function EmailLocalPart(email: Value): (r: Value)
    ensures email.Str? ==> r.Str? && '@' !in r.s && StartsWith(email.s, r.s)
  {
    match email
    case Str(a) =>
      var parts := Split(a, '@');
      SplitFirstIsPrefix(a, '@');
      Str(parts[0])
    case _ => Undefined
  }

  /** The first part of a split is a prefix of the string. */
  lemma {:induction false} SplitFirstIsPrefix(s: string, sep: char)
    ensures StartsWith(s, Split(s, sep)[0])
    decreases |s|
  {
    if s != [] && s[0] != sep {
      SplitFirstIsPrefix(s[1..], sep);
      assert Split(s, sep)[0] == [s[0]] + Split(s[1..], sep)[0];
    }
  }

  /** The field derivation of lines 80-117 of the source. */
  function DeriveUserFields(pu: PrivyUser): (f: UserFields)
    ensures f.name != ""
    ensures f.username == f.login
    ensures var subject := Or(GithubAccount(pu).subject, GithubProfileOf(pu).subject);
      Truthy(subject) ==> f.image == Str(AvatarPrefix + TextOf(subject) + AvatarSuffix)
  {
    var githubUserId := Or(GithubAccount(pu).subject, GithubProfileOf(pu).subject);
    var image :=
      if Truthy(githubUserId) then Str(AvatarPrefix + TextOf(githubUserId) + AvatarSuffix)
      else Or(Or(Or(GithubAccount(pu).profilePictureUrl, GithubAccount(pu).avatarUrl),
                 GithubProfileOf(pu).profilePictureUrl),
              GithubProfileOf(pu).avatarUrl);
    var name := Or(Or(Or(GithubAccount(pu).name, GithubProfileOf(pu).name),
                      EmailLocalPart(pu.email)),
                   Str("User"));
    var username := Or(GithubAccount(pu).username, GithubProfileOf(pu).username);
    UserFields(TextOf(name), pu.email, username, username, image, WalletAccount(pu).address)
  }

  /** The name is the first non-empty of the GitHub account's name, the
      GitHub profile's name and the e-mail's local part, else "User". */
  lemma DerivedName(pu: PrivyUser)
    ensures var n1 := GithubAccount(pu).name;
      var n2 := GithubProfileOf(pu).name;
      var n3 := EmailLocalPart(pu.email);
      DeriveUserFields(pu).name ==
        if Truthy(n1) then TextOf(n1) else if Truthy(n2) then TextOf(n2) else if Truthy(n3) then TextOf(n3) else "User"
  {
  }

  /** Without a GitHub subject the image is the first non-empty picture
      field, in the source's order. */
  lemma DerivedImageFallback(pu: PrivyUser)
    requires !Truthy(Or(GithubAccount(pu).subject, GithubProfileOf(pu).subject))
    ensures var p1 := GithubAccount(pu).profilePictureUrl;
      var p2 := GithubAccount(pu).avatarUrl;
      var p3 := GithubProfileOf(pu).profilePictureUrl;
      var p4 := GithubProfileOf(pu).avatarUrl;
      DeriveUserFields(pu).image ==
        if Truthy(p1) then p1 else if Truthy(p2) then p2 else if Truthy(p3) then p3 else p4
  {
  }

  /** A Prisma update: `undefined` leaves the column, `null` clears it. */
  function Update(current: Option<string>, v: Value): (r: Option<string>)
    ensures v.Undefined? ==> r == current
    ensures v.Null? ==> r.None?
    ensures v.Str? ==> r == Some(v.s)
  {
    match v
    case Undefined => current
    case Null => None
    case _ => Some(TextOf(v))
  }

  /** A Prisma create: a missing value becomes the column's `null`. */
  function Create(v: Value): Option<string> {
    Update(None, v)
  }

  /** The existing row for a Privy id, if any. */
  predicate HasPrivyUser(st: DbState, privyId: string) {
    exists k :: k in st.users && st.users[k].privyId == privyId
  }

  /** The user row after the upsert: the update branch rewrites the
      derived columns, the create branch also sets the Privy id and zero
      unclaimed tokens. */
  function UpsertedUser(existing: Option<User>, id: Id, privyId: string, f: UserFields): (u: User)
    ensures u.id == (if existing.Some? then existing.value.id else id)
    ensures u.privyId == (if existing.Some? then existing.value.privyId else privyId)
    ensures u.unclaimedTokens == (if existing.Some? then existing.value.unclaimedTokens else 0)
    ensures u.name == Some(f.name)
  {
    match existing
    case Some(row) =>
      row.(name := Some(f.name), email := Update(row.email, f.email), username := Update(row.username, f.username),
           login := Update(row.login, f.login), image := Update(row.image, f.image),
           walletAddress := Update(row.walletAddress, f.walletAddress))
    case None =>
      User(id, privyId, Some(f.name), Create(f.email), Create(f.username), Create(f.login), Create(f.image),
           Create(f.walletAddress), 0)
  }

  /** Writing the same fields twice is writing them once. */
  lemma UpsertTwice(existing: Option<User>, id: Id, privyId: string, f: UserFields)
    ensures var u := UpsertedUser(existing, id, privyId, f);
      UpsertedUser(Some(u), u.id, privyId, f) == u
  {
  }

  /** The id of the user row a sync writes: the row holding the Privy id,
      or a fresh one. */
  function SyncedId(st: DbState, privyId: string): (k: Id)
    requires ValidOthers(st)
    ensures HasPrivyUser(st, privyId) ==> k in st.users && st.users[k].privyId == privyId
    ensures !HasPrivyUser(st, privyId) ==> k == st.nextId
  {
    if HasPrivyUser(st, privyId) then
      var k :| k in st.users && st.users[k].privyId == privyId; k
    else st.nextId
  }

  /** The user upsert keyed by Privy id. */
  function UpsertUser(st: DbState, pu: PrivyUser): (st': DbState)
    requires ValidOthers(st)
  {
    var uid := SyncedId(st, pu.id);
    var existing := if HasPrivyUser(st, pu.id) then Some(st.users[uid]) else None;
    st.(users := st.users[uid := UpsertedUser(existing, uid, pu.id, DeriveUserFields(pu))],
        nextId := if existing.Some? then st.nextId else st.nextId + 1)
  }

  /** The account upsert happens only for a GitHub account carrying both an
      access token and a subject. */
  predicate SyncsAccount(pu: PrivyUser) {
    var ga := FindGithub(pu.linkedAccounts);
    ga.Some? && Truthy(ga.value.accessToken) && Truthy(ga.value.subject)
  }

  /** The account upsert keyed by ("github", subject): the update branch
      only refreshes the token. */
  function UpsertAccount(st: DbState, pu: PrivyUser, uid: Id): (st': DbState) {
    if SyncsAccount(pu) then
      var ga := GithubAccount(pu);
      var key := ("github", TextOf(ga.subject));
      var account :=
        if key in st.accounts then st.accounts[key].(accessToken := TextOf(ga.accessToken))
        else Account(uid, "oauth", "github", TextOf(ga.subject), TextOf(ga.accessToken));
      st.(accounts := st.accounts[key := account])
    else st
  }

  /** The outcome of a sync: the user's id, or `None` when it throws. */
  datatype Synced = Synced(user: Option<Id>, st: DbState)

  /** `syncPrivyUserToDb` on a database state. */
  function SyncSpec(st: DbState, pu: PrivyUser): (r: Synced)
    requires Valid(st)
  {
    if pu.id == "" then Synced(None, st)
    else
      var uid := SyncedId(st, pu.id);
      Synced(Some(uid), UpsertAccount(UpsertUser(st, pu), pu, uid))
  }

  /** The sync as the route handlers run it. */
  method SyncPrivyUser(db: Db, pu: PrivyUser) returns (user: Option<Id>)
    requires Valid(db.State())
    modifies db
    ensures Synced(user, db.State()) == SyncSpec(old(db.State()), pu)
  {
    if pu.id == "" {
      return None;
    }
    var uid := UpsertUserRow(db, pu);
    UpsertAccountRow(db, pu, uid);
    user := Some(uid);
  }

  /** `prisma.user.upsert` keyed by Privy id: the existing row's derived
      columns are rewritten, or a new row is created. */
  method UpsertUserRow(db: Db, pu: PrivyUser) returns (uid: Id)
    requires ValidOthers(db.State())
    modifies db
    ensures uid == SyncedId(old(db.State()), pu.id)
    ensures db.State() == UpsertUser(old(db.State()), pu)
  {
    var f := DeriveUserFields(pu);
    uid := SyncedId(db.State(), pu.id);
    if uid in db.users && db.users[uid].privyId == pu.id {
      db.users := db.users[uid := UpsertedUser(Some(db.users[uid]), uid, pu.id, f)];
    } else {
      db.users := db.users[uid := UpsertedUser(None, uid, pu.id, f)];
      db.nextId := db.nextId + 1;
    }
  }

  /** `prisma.account.upsert` keyed by ("github", subject), for a GitHub
      account with an access token and a subject. */
  method UpsertAccountRow(db: Db, pu: PrivyUser, uid: Id)
    modifies db
    ensures db.State() == UpsertAccount(old(db.State()), pu, uid)
  {
    var ga := FindGithub(pu.linkedAccounts);
    if ga.Some? && Truthy(ga.value.accessToken) && Truthy(ga.value.subject) {
      var key := ("github", TextOf(ga.value.subject));
      if key in db.accounts {
        db.accounts := db.accounts[key := db.accounts[key].(accessToken := TextOf(ga.value.accessToken))];
      } else {
        db.accounts := db.accounts[key := Account(uid, "oauth", "github", TextOf(ga.value.subject), TextOf(ga.value.accessToken))];
      }
    }
  }

  /** The user upsert keeps the invariant and leaves exactly one row for
      the Privy id. */
  lemma UpsertUserValid(st: DbState, pu: PrivyUser)
    requires Valid(st)
    ensures var st' := UpsertUser(st, pu);
      var uid := SyncedId(st, pu.id);
      && Valid(st')
      && st' == st.(users := st'.users, nextId := st'.nextId)
      && st.users.Keys <= st'.users.Keys
      && uid in st'.users && st'.users[uid].privyId == pu.id
      && (forall k :: k in st'.users && st'.users[k].privyId == pu.id ==> k == uid)
  {
    var uid := SyncedId(st, pu.id);
    var st' := UpsertUser(st, pu);
    var u := st'.users[uid];
    assert u.privyId == pu.id && u.id == uid;
    assert forall k :: k in st.users && k != uid ==> st.users[k].privyId != pu.id;
    KeepsValidUser(st, u, st'.nextId);
    assert st' == st.(users := st.users[u.id := u], nextId := st'.nextId);
  }

  /** The account upsert touches the accounts table only and keeps the
      invariant. */
  lemma UpsertAccountValid(st: DbState, pu: PrivyUser, uid: Id)
    requires Valid(st)
    ensures var st' := UpsertAccount(st, pu, uid);
      Valid(st') && st' == st.(accounts := st'.accounts)
  {
    var st' := UpsertAccount(st, pu, uid);
    if SyncsAccount(pu) {
      var key := ("github", TextOf(GithubAccount(pu).subject));
      var a := st'.accounts[key];
      KeepsValidAccount(st, key, a);
      assert st' == st.(accounts := st.accounts[key := a]);
    }
  }

  /** A sync keeps the invariant, touches only users, accounts and the id
      counter, and leaves exactly one user row for the Privy id, carrying
      the derived name; a newly created row has no unclaimed tokens. */
  lemma SyncPreservesValid(st: DbState, pu: PrivyUser)
    requires Valid(st)
    ensures var r := SyncSpec(st, pu);
      && Valid(r.st)
      && r.st == st.(users := r.st.users, accounts := r.st.accounts, nextId := r.st.nextId)
      && st.users.Keys <= r.st.users.Keys
      && (r.user.None? <==> pu.id == "")
      && (r.user.Some? ==>
            && r.user.value in r.st.users && r.st.users[r.user.value].privyId == pu.id
            && r.st.users[r.user.value].name == Some(DeriveUserFields(pu).name)
            && (forall k :: k in r.st.users && r.st.users[k].privyId == pu.id ==> k == r.user.value)
            && (!HasPrivyUser(st, pu.id) ==> r.st.users[r.user.value].unclaimedTokens == 0))
  {
    if pu.id != "" {
      var uid := SyncedId(st, pu.id);
      var st1 := UpsertUser(st, pu);
      UpsertUserValid(st, pu);
      UpsertAccountValid(st1, pu, uid);
    }
  }

  /** Re-running the user upsert over its own result, whatever happened to
      the accounts in between, changes nothing. */
  lemma UpsertUserAgain(st: DbState, pu: PrivyUser, st2: DbState)
    requires Valid(st) && ValidOthers(st2)
    requires st2 == UpsertUser(st, pu).(accounts := st2.accounts)
    ensures SyncedId(st2, pu.id) == SyncedId(st, pu.id)
    ensures UpsertUser(st2, pu) == st2
  {
    UpsertUserValid(st, pu);
    var uid := SyncedId(st, pu.id);
    SyncedIdOf(st2, pu.id, uid);
    var existing := if HasPrivyUser(st, pu.id) then Some(st.users[uid]) else None;
    var u := UpsertedUser(existing, uid, pu.id, DeriveUserFields(pu));
    assert st2.users[uid] == u;
    UpsertTwice(existing, uid, pu.id, DeriveUserFields(pu));
    assert st2.users[uid := UpsertedUser(Some(u), uid, pu.id, DeriveUserFields(pu))] == st2.users;
  }

  /** The row holding a Privy id is the one a sync writes. */
  lemma SyncedIdOf(st: DbState, privyId: string, k: Id)
    requires ValidOthers(st) && k in st.users && st.users[k].privyId == privyId
    ensures HasPrivyUser(st, privyId) && SyncedId(st, privyId) == k
  {
  }

  /** Re-running the account upsert over its own result changes nothing. */
  lemma UpsertAccountAgain(st: DbState, pu: PrivyUser, uid: Id)
    ensures UpsertAccount(UpsertAccount(st, pu, uid), pu, uid) == UpsertAccount(st, pu, uid)
  {
  }

  /** Syncing the same Privy user twice gives the same rows and the same id
      as syncing once. */
  lemma SyncIdempotent(st: DbState, pu: PrivyUser)
    requires Valid(st)
    ensures Valid(SyncSpec(st, pu).st)
    ensures SyncSpec(SyncSpec(st, pu).st, pu) == SyncSpec(st, pu)
  {
    SyncPreservesValid(st, pu);
    if pu.id != "" {
      var uid := SyncedId(st, pu.id);
      var st1 := UpsertUser(st, pu);
      UpsertUserValid(st, pu);
      var st2 := UpsertAccount(st1, pu, uid);
      UpsertAccountValid(st1, pu, uid);
      UpsertUserAgain(st, pu, st2);
      UpsertAccountAgain(st1, pu, uid);
    }
  }
}
