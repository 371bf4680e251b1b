/**
 * `/api/github/bot/installation`: whether the bounty bot is installed on a
 * repository (GET), recording that it is (POST, an upsert keyed by
 * (owner, repo)), and recording that it no longer is (DELETE, which keeps
 * the record and its `installedBy`).
 */
module InstallationRoutes {
  import opened Wrappers
  import opened JsValues
  import opened Store
  import opened Auth

  /** A query parameter that is present and not empty. */
  predicate Given(p: Option<string>) {
    p.Some? && p.value != ""
  }

  /** The stored record for a repository, if any. */
  function RecordOf(st: DbState, owner: string, repo: string): Option<Installation> {
    if (owner, repo) in st.installations then Some(st.installations[(owner, repo)]) else None
  }

  /** `installation?.installed || false`. */
  function IsInstalled(st: DbState, owner: string, repo: string): (b: bool)
    ensures b <==> RecordOf(st, owner, repo).Some? && RecordOf(st, owner, repo).value.installed
  {
    var r := RecordOf(st, owner, repo);
    r.Some? && r.value.installed
  }

  /** The upsert of a POST: the record for (owner, repo) becomes installed
      by `uid`, whether it existed or not. */
  function MarkInstalled(st: DbState, owner: string, repo: string, uid: Id): DbState {
    var key := (owner, repo);
    var row := if key in st.installations then st.installations[key].(installed := true, installedBy := uid)
               else Installation(owner, repo, true, uid);
    st.(installations := st.installations[key := row])
  }

  /** The update of a DELETE: `None` when there is no record to update (the
      database call throws); otherwise the record is marked uninstalled. */
  function MarkUninstalled(st: DbState, owner: string, repo: string): Option<DbState> {
    var key := (owner, repo);
    if key in st.installations then
      Some(st.(installations := st.installations[key := st.installations[key].(installed := false)]))
    else None
  }

  // ---------------------------------------------------------------------
  // GET

  /** A GET's response: the status, `installed`, the record, and the
      database after the user sync. */
  datatype Lookup = Lookup(code: int, installed: bool, installation: Option<Installation>, st: DbState)

  /** 400 without both parameters, before any authentication; then the
      authentication; then the lookup. */
  function GetInstallationSpec(st: DbState, oracle: Oracle, header: Option<string>,
                               owner: Option<string>, repo: Option<string>): Lookup
    requires Valid(st)
  {
    if !Given(owner) || !Given(repo) then Lookup(400, false, None, st)
    else
      var a := AuthSpec(st, oracle, header);
      match a.result
      case Denied(code) => Lookup(code, false, None, a.st)
      case Granted(_) =>
        Lookup(200, IsInstalled(a.st, owner.value, repo.value), RecordOf(a.st, owner.value, repo.value), a.st)
  }

  method GetInstallation(db: Db, oracle: Oracle, header: Option<string>, owner: Option<string>, repo: Option<string>)
    returns (code: int, installed: bool, installation: Option<Installation>)
    requires Valid(db.State())
    modifies db
    ensures Lookup(code, installed, installation, db.State())
         == GetInstallationSpec(old(db.State()), oracle, header, owner, repo)
  {
    if !Given(owner) || !Given(repo) {
      return 400, false, None;
    }
    var auth := Authenticate(db, oracle, header);
    if auth.Denied? {
      return auth.status, false, None;
    }
    var key := (owner.value, repo.value);
    if key in db.installations {
      installation := Some(db.installations[key]);
    } else {
      installation := None;
    }
    installed := installation.Some? && installation.value.installed;
    code := 200;
  }

  // ---------------------------------------------------------------------
  // POST

  datatype InstallBody = InstallBody(owner: Value, repo: Value)

  /** A write's response: the status and the database after it. */
  datatype Written = Written(code: int, st: DbState)

  /** The body first (unreadable JSON is a 500, a missing owner or repo a
      400), then the authentication, then the upsert; the database rejects
      an owner or repo that is not a string. */
  function PostInstallationSpec(st: DbState, oracle: Oracle, header: Option<string>, body: Option<InstallBody>): Written
    requires Valid(st)
  {
    if body.None? then Written(500, st)
    else if !Truthy(body.value.owner) || !Truthy(body.value.repo) then Written(400, st)
    else
      var a := AuthSpec(st, oracle, header);
      match a.result
      case Denied(code) => Written(code, a.st)
      case Granted(uid) =>
        if !body.value.owner.Str? || !body.value.repo.Str? then Written(500, a.st)
        else Written(200, MarkInstalled(a.st, body.value.owner.s, body.value.repo.s, uid))
  }

  method PostInstallation(db: Db, oracle: Oracle, header: Option<string>, body: Option<InstallBody>)
    returns (code: int)
    requires Valid(db.State())
    modifies db
    ensures Written(code, db.State()) == PostInstallationSpec(old(db.State()), oracle, header, body)
  {
    if body.None? {
      return 500;
    }
    if !Truthy(body.value.owner) || !Truthy(body.value.repo) {
      return 400;
    }
    var auth := Authenticate(db, oracle, header);
    if auth.Denied? {
      return auth.status;
    }
    if !body.value.owner.Str? || !body.value.repo.Str? {
      return 500;
    }
    var key := (body.value.owner.s, body.value.repo.s);
    if key in db.installations {
      db.installations := db.installations[key := db.installations[key].(installed := true, installedBy := auth.user)];
    } else {
      db.installations := db.installations[key := Installation(key.0, key.1, true, auth.user)];
    }
    code := 200;
  }

  // ---------------------------------------------------------------------
  // DELETE

  /** 400 without both parameters, then the authentication, then the
      update: 500 when there is no record, else the record is marked
      uninstalled. */
  function DeleteInstallationSpec(st: DbState, oracle: Oracle, header: Option<string>,
                                  owner: Option<string>, repo: Option<string>): Written
    requires Valid(st)
  {
    if !Given(owner) || !Given(repo) then Written(400, st)
    else
      var a := AuthSpec(st, oracle, header);
      match a.result
      case Denied(code) => Written(code, a.st)
      case Granted(_) =>
        match MarkUninstalled(a.st, owner.value, repo.value)
        case None => Written(500, a.st)
        case Some(st') => Written(200, st')
  }

  method DeleteInstallation(db: Db, oracle: Oracle, header: Option<string>, owner: Option<string>, repo: Option<string>)
    returns (code: int)
    requires Valid(db.State())
    modifies db
    ensures Written(code, db.State()) == DeleteInstallationSpec(old(db.State()), oracle, header, owner, repo)
  {
    if !Given(owner) || !Given(repo) {
      return 400;
    }
    var auth := Authenticate(db, oracle, header);
    if auth.Denied? {
      return auth.status;
    }
    var key := (owner.value, repo.value);
    if key !in db.installations {
      return 500;
    }
    db.installations := db.installations[key := db.installations[key].(installed := false)];
    code := 200;
  }

  // ---------------------------------------------------------------------
  // Properties

  /** The stored record for (owner, repo), if any, names that repository. */
  predicate KeyedRecord(st: DbState, owner: string, repo: string) {
    (owner, repo) in st.installations ==>
      st.installations[(owner, repo)].owner == owner && st.installations[(owner, repo)].repo == repo
  }

  /** The upsert leaves exactly one record for the repository, installed by
      the caller; every other record is untouched; doing it again changes
      nothing more. */
  lemma MarkInstalledShape(st: DbState, owner: string, repo: string, uid: Id)
    requires KeyedRecord(st, owner, repo)
    ensures var st' := MarkInstalled(st, owner, repo, uid);
      && st'.installations.Keys == st.installations.Keys + {(owner, repo)}
      && RecordOf(st', owner, repo) == Some(Installation(owner, repo, true, uid))
      && (forall key :: key in st.installations && key != (owner, repo) ==> st'.installations[key] == st.installations[key])
      && st' == st.(installations := st'.installations)
      && MarkInstalled(st', owner, repo, uid) == st'
  {
  }

  /** The upsert keeps the invariant. */
  lemma MarkInstalledOutcome(st: DbState, owner: string, repo: string, uid: Id)
    requires Valid(st)
    ensures KeyedRecord(st, owner, repo)
    ensures Valid(MarkInstalled(st, owner, repo, uid))
  {
    var key := (owner, repo);
    var row := if key in st.installations then st.installations[key].(installed := true, installedBy := uid)
               else Installation(owner, repo, true, uid);
    KeepsValidInstallation(st, key, row);
  }

  /** Marking uninstalled keeps the record, and who installed the bot,
      and changes nothing else; without a record it fails. */
  lemma MarkUninstalledShape(st: DbState, owner: string, repo: string)
    ensures var r := MarkUninstalled(st, owner, repo);
      && (r.None? <==> RecordOf(st, owner, repo).None?)
      && (r.Some? ==>
            && r.value.installations.Keys == st.installations.Keys
            && RecordOf(r.value, owner, repo) == Some(RecordOf(st, owner, repo).value.(installed := false))
            && RecordOf(r.value, owner, repo).value.installedBy == RecordOf(st, owner, repo).value.installedBy
            && (forall key :: key in st.installations && key != (owner, repo) ==>
                  r.value.installations[key] == st.installations[key])
            && r.value == st.(installations := r.value.installations))
  {
  }

  /** Marking uninstalled keeps the invariant. */
  lemma MarkUninstalledOutcome(st: DbState, owner: string, repo: string)
    requires Valid(st)
    ensures MarkUninstalled(st, owner, repo).Some? ==> Valid(MarkUninstalled(st, owner, repo).value)
  {
    var key := (owner, repo);
    if key in st.installations {
      KeepsValidInstallation(st, key, st.installations[key].(installed := false));
    }
  }

  /** A GET keeps the invariant; without both parameters it answers 400
      before authenticating; once authenticated it reports the stored
      record, which the user sync never touches. */
  lemma GetInstallationOutcome(st: DbState, oracle: Oracle, header: Option<string>,
                               owner: Option<string>, repo: Option<string>)
    requires Valid(st)
    ensures var g := GetInstallationSpec(st, oracle, header, owner, repo);
      && Valid(g.st)
      && g.st.installations == st.installations
      && (!Given(owner) || !Given(repo) ==> g == Lookup(400, false, None, st))
      && g.code in {200, 400, 401, 500}
      && (g.code == 200 ==>
            && g.installation == RecordOf(st, owner.value, repo.value)
            && g.installed == IsInstalled(st, owner.value, repo.value))
  {
    AuthSound(st, oracle, header);
  }

  /** A POST keeps the invariant; a successful one leaves the repository's
      record installed by the authenticated caller. */
  lemma PostInstallationOutcome(st: DbState, oracle: Oracle, header: Option<string>, body: Option<InstallBody>)
    requires Valid(st)
    ensures var p := PostInstallationSpec(st, oracle, header, body);
      && Valid(p.st)
      && (body.None? ==> p == Written(500, st))
      && (body.Some? && (!Truthy(body.value.owner) || !Truthy(body.value.repo)) ==> p == Written(400, st))
      && (p.code == 200 ==>
            && AuthSpec(st, oracle, header).result.Granted?
            && body.Some? && body.value.owner.Str? && body.value.repo.Str?
            && p.st == MarkInstalled(AuthSpec(st, oracle, header).st, body.value.owner.s, body.value.repo.s,
                                     AuthSpec(st, oracle, header).result.user))
      && (p.code != 200 ==> p.st.installations == st.installations)
  {
    AuthSound(st, oracle, header);
    var a := AuthSpec(st, oracle, header);
    if a.result.Granted? && body.Some? && body.value.owner.Str? && body.value.repo.Str? {
      MarkInstalledOutcome(a.st, body.value.owner.s, body.value.repo.s, a.result.user);
      MarkInstalledShape(a.st, body.value.owner.s, body.value.repo.s, a.result.user);
    }
  }

  /** A DELETE keeps the invariant; without both parameters it answers 400
      before authenticating; a successful one marks the stored record
      uninstalled. */
  lemma DeleteInstallationOutcome(st: DbState, oracle: Oracle, header: Option<string>,
                                  owner: Option<string>, repo: Option<string>)
    requires Valid(st)
    ensures var d := DeleteInstallationSpec(st, oracle, header, owner, repo);
      && Valid(d.st)
      && (!Given(owner) || !Given(repo) ==> d == Written(400, st))
      && (d.code == 200 ==>
            && Given(owner) && Given(repo)
            && Some(d.st) == MarkUninstalled(AuthSpec(st, oracle, header).st, owner.value, repo.value))
      && (d.code != 200 ==> d.st.installations == st.installations)
  {
    AuthSound(st, oracle, header);
    var a := AuthSpec(st, oracle, header);
    if a.result.Granted? && Given(owner) && Given(repo) {
      MarkUninstalledShape(a.st, owner.value, repo.value);
      MarkUninstalledOutcome(a.st, owner.value, repo.value);
    }
  }

  /** What a successful POST leaves behind: the repository's record,
      installed by the authenticated caller, whose row still carries the
      identity the token was verified as. */
  lemma PostRecord(st: DbState, oracle: Oracle, header: Option<string>, body: InstallBody)
    requires Valid(st)
    requires PostInstallationSpec(st, oracle, header, Some(body)).code == 200
    ensures body.owner.Str? && body.repo.Str?
    ensures var p := PostInstallationSpec(st, oracle, header, Some(body));
      var a := AuthSpec(st, oracle, header);
      && a.result.Granted?
      && Valid(p.st)
      && RecordOf(p.st, body.owner.s, body.repo.s) == Some(Installation(body.owner.s, body.repo.s, true, a.result.user))
      && p.st.installations == MarkInstalled(st, body.owner.s, body.repo.s, a.result.user).installations
      && a.result.user in p.st.users
      && p.st.users[a.result.user].privyId == a.st.users[a.result.user].privyId
  {
    var a := AuthSpec(st, oracle, header);
    AuthSound(st, oracle, header);
    var o, r := body.owner.s, body.repo.s;
    MarkInstalledOutcome(a.st, o, r, a.result.user);
    MarkInstalledShape(a.st, o, r, a.result.user);
  }

  /** What a successful DELETE leaves behind: the repository's record,
      uninstalled, still naming who installed the bot. */
  lemma DeleteRecord(st: DbState, oracle: Oracle, header: Option<string>, owner: string, repo: string)
    requires Valid(st)
    requires DeleteInstallationSpec(st, oracle, header, Some(owner), Some(repo)).code == 200
    ensures (owner, repo) in st.installations
    ensures var d := DeleteInstallationSpec(st, oracle, header, Some(owner), Some(repo));
      && Valid(d.st)
      && RecordOf(d.st, owner, repo) == Some(st.installations[(owner, repo)].(installed := false))
  {
    var a := AuthSpec(st, oracle, header);
    AuthSound(st, oracle, header);
    MarkUninstalledShape(a.st, owner, repo);
    MarkUninstalledOutcome(a.st, owner, repo);
  }

  /** After a successful POST for a repository, a GET for it that
      authenticates reports it installed, by the POST's caller. */
  lemma PostThenGet(st: DbState, oracle: Oracle, header: Option<string>, owner: string, repo: string,
                    oracle2: Oracle, header2: Option<string>)
    requires Valid(st) && owner != "" && repo != ""
    requires PostInstallationSpec(st, oracle, header, Some(InstallBody(Str(owner), Str(repo)))).code == 200
    ensures Valid(PostInstallationSpec(st, oracle, header, Some(InstallBody(Str(owner), Str(repo)))).st)
    ensures var st1 := PostInstallationSpec(st, oracle, header, Some(InstallBody(Str(owner), Str(repo)))).st;
      var g := GetInstallationSpec(st1, oracle2, header2, Some(owner), Some(repo));
      g.code == 200 ==>
        && g.installed
        && g.installation == Some(Installation(owner, repo, true, AuthSpec(st, oracle, header).result.user))
  {
    var body := InstallBody(Str(owner), Str(repo));
    PostRecord(st, oracle, header, body);
    var st1 := PostInstallationSpec(st, oracle, header, Some(body)).st;
    GetInstallationOutcome(st1, oracle2, header2, Some(owner), Some(repo));
  }

  /** After a successful DELETE for a repository, a GET for it that
      authenticates reports it not installed, and the record still names
      who installed it. */
  lemma DeleteThenGet(st: DbState, oracle: Oracle, header: Option<string>, owner: string, repo: string,
                      oracle2: Oracle, header2: Option<string>)
    requires Valid(st) && owner != "" && repo != ""
    requires DeleteInstallationSpec(st, oracle, header, Some(owner), Some(repo)).code == 200
    ensures (owner, repo) in st.installations
    ensures Valid(DeleteInstallationSpec(st, oracle, header, Some(owner), Some(repo)).st)
    ensures var st1 := DeleteInstallationSpec(st, oracle, header, Some(owner), Some(repo)).st;
      var g := GetInstallationSpec(st1, oracle2, header2, Some(owner), Some(repo));
      g.code == 200 ==>
        && !g.installed
        && g.installation == Some(st.installations[(owner, repo)].(installed := false))
  {
    DeleteRecord(st, oracle, header, owner, repo);
    var st1 := DeleteInstallationSpec(st, oracle, header, Some(owner), Some(repo)).st;
    GetInstallationOutcome(st1, oracle2, header2, Some(owner), Some(repo));
  }

  /** Repeating a successful POST, by the same authenticated caller,
      leaves the one record exactly as the first POST left it. */
  lemma PostRepeated(st: DbState, oracle: Oracle, header: Option<string>, body: InstallBody)
    requires Valid(st)
    requires PostInstallationSpec(st, oracle, header, Some(body)).code == 200
    ensures body.owner.Str? && body.repo.Str?
    ensures Valid(PostInstallationSpec(st, oracle, header, Some(body)).st)
    ensures var st1 := PostInstallationSpec(st, oracle, header, Some(body)).st;
      var st2 := PostInstallationSpec(st1, oracle, header, Some(body)).st;
      && st2.installations == st1.installations
      && st2.installations.Keys == st.installations.Keys + {(body.owner.s, body.repo.s)}
  {
    PostRecord(st, oracle, header, body);
    var st1 := PostInstallationSpec(st, oracle, header, Some(body)).st;
    var uid := AuthSpec(st, oracle, header).result.user;
    AuthAgain(st, oracle, header, st1);
    assert AuthSpec(st1, oracle, header).result == Granted(uid);
    PostRecord(st1, oracle, header, body);
    MarkInstalledOutcome(st, body.owner.s, body.repo.s, uid);
    MarkInstalledShape(st, body.owner.s, body.repo.s, uid);
  }
}
