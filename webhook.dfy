/**
 * The GitHub webhook endpoint: the event switch and the three handlers
 * that change the store (ping registers a repository, issues closes a
 * bounty, a merged pull request settles submissions). Each handler is a
 * method on the shared `Db` proved against a function of the old state;
 * the properties are lemmas about those functions.
 */
module Webhook {
  import opened Wrappers
  import opened Strings
  import opened Store
  import opened Settlement
  import opened SettlementProperties
  import WebhookSignature

  /** The fields of the parsed event body the handlers read. */
  datatype Event = Event(
    action: string,
    issueNumber: int,
    prNumber: int,
    merged: bool,
    ownerLogin: string,
    repoName: string,
    senderLogin: string)

  /** What the endpoint answers and the database afterwards. */
  datatype Delivery = Delivery(status: int, st: DbState)

  // ---------------------------------------------------------------- issues

  /** The issue-closed update: SOLVED, `isSolved` and `solvedAt`, with the
      solver left as it was. */
  function CloseSolve(b: Bounty, now: Time): (r: Bounty)
    ensures r.status == Solved && r.isSolved && r.solvedAt == Some(now)
    ensures r.solvedBy == b.solvedBy && r.id == b.id && KeyOf(r) == KeyOf(b)
    ensures r.amount == b.amount && r.posterId == b.posterId && r.labels == b.labels
  {
    b.(status := Solved, isSolved := true, solvedAt := Some(now))
  }

  /** `handleIssueEvent`: on "closed" the bounty with the issue's natural
      key, if it is ACTIVE, is closed; every other action changes nothing. */
  function IssueSpec(st: DbState, action: string, key: NaturalKey, now: Time): DbState {
    if action == "closed" then st.(bounties := ClosedBounties(st.bounties, key, now)) else st
  }

  /** The bounties after an issue with the key `key` is closed. */
  function ClosedBounties(bounties: map<Id, Bounty>, key: NaturalKey, now: Time): (r: map<Id, Bounty>)
    ensures r.Keys == bounties.Keys
    ensures forall k :: k in bounties ==>
      r[k] == if KeyOf(bounties[k]) == key && bounties[k].status == Active then CloseSolve(bounties[k], now) else bounties[k]
  {
    map k | k in bounties ::
      if KeyOf(bounties[k]) == key && bounties[k].status == Active then CloseSolve(bounties[k], now) else bounties[k]
  }

  /** The issues handler. It answers whether the log-only label stub would
      be called, which is the only effect of an "opened" event. */
  method HandleIssueEvent(db: Db, action: string, issueNumber: int, owner: string, repo: string, now: Time)
    returns (labelRequested: bool)
    requires Valid(db.State())
    modifies db
    ensures db.State() == IssueSpec(old(db.State()), action, NaturalKey(issueNumber, owner, repo), now)
    ensures labelRequested <==> action == "opened" && HasKey(old(db.State()), NaturalKey(issueNumber, owner, repo))
  {
    var key := NaturalKey(issueNumber, owner, repo);
    ghost var st0 := db.State();
    labelRequested := false;
    if action == "opened" {
      if k :| k in db.bounties && KeyOf(db.bounties[k]) == key {
        labelRequested := true;
      }
    } else if action == "closed" {
      var closed := IssueSpec(st0, action, key, now).bounties;
      if k :| k in db.bounties && KeyOf(db.bounties[k]) == key {
        var b := db.bounties[k];
        if b.status == Active {
          db.bounties := db.bounties[k := CloseSolve(b, now)];
        }
        assert forall j :: j in st0.bounties && j != k ==> KeyOf(st0.bounties[j]) != key;
      }
      assert db.bounties == closed;
    }
  }

  /** Closing an issue keeps the database invariant. */
  lemma IssuePreservesValid(st: DbState, action: string, key: NaturalKey, now: Time)
    requires Valid(st)
    ensures Valid(IssueSpec(st, action, key, now))
  {
    if action == "closed" {
      KeepsValidBounties(st, ClosedBounties(st.bounties, key, now));
    }
  }

  /** Only the ACTIVE bounty with the issue's key can change; it becomes
      SOLVED and keeps its solver (none is recorded on this path).
      Submissions and the other tables are untouched. */
  lemma IssueOnlyActiveClosed(st: DbState, action: string, key: NaturalKey, now: Time, b: Id)
    requires b in st.bounties
    ensures var st' := IssueSpec(st, action, key, now);
      && st'.submissions == st.submissions && st'.installations == st.installations
      && st'.bounties.Keys == st.bounties.Keys
      && (st'.bounties[b] != st.bounties[b] <==>
            action == "closed" && KeyOf(st.bounties[b]) == key && st.bounties[b].status == Active)
      && (st'.bounties[b] != st.bounties[b] ==>
            st'.bounties[b].status == Solved && st'.bounties[b].solvedAt == Some(now)
            && st'.bounties[b].solvedBy == st.bounties[b].solvedBy)
  {
    if action == "closed" && KeyOf(st.bounties[b]) == key && st.bounties[b].status == Active {
      assert IssueSpec(st, action, key, now).bounties[b].status == Solved;
    }
  }

  /** An "opened" event, or any action other than "closed", leaves the
      database as it is. */
  lemma IssueOtherActionsNoChange(st: DbState, action: string, key: NaturalKey, now: Time)
    requires action != "closed"
    ensures IssueSpec(st, action, key, now) == st
  {
  }

  /** Closing the same issue again changes nothing: the bounty is no longer
      ACTIVE. */
  lemma IssueIdempotent(st: DbState, action: string, key: NaturalKey, now: Time, later: Time)
    ensures IssueSpec(IssueSpec(st, action, key, now), action, key, later) == IssueSpec(st, action, key, now)
  {
    var st1 := IssueSpec(st, action, key, now);
    if action == "closed" {
      var st2 := IssueSpec(st1, action, key, later);
      assert forall k :: k in st1.bounties ==> !(KeyOf(st1.bounties[k]) == key && st1.bounties[k].status == Active);
      assert st2.bounties == st1.bounties;
    }
  }

  // ------------------------------------------------------------------ ping

  /** The `findFirst` condition: login equal to the sender, or username
      equal to it exactly or up to case. */
  predicate SenderMatches(u: User, sender: string) {
    || u.login == Some(sender)
    || u.username == Some(sender)
    || (u.username.Some? && ToLower(u.username.value) == ToLower(sender))
  }

  /** The first user in `userOrder` (the database's row order) that
      matches the sender. */
  function FirstMatchingUser(st: DbState, userOrder: seq<Id>, sender: string): (u: Option<Id>)
    requires forall i :: 0 <= i < |userOrder| ==> userOrder[i] in st.users
    ensures u.None? <==> forall i :: 0 <= i < |userOrder| ==> !SenderMatches(st.users[userOrder[i]], sender)
    ensures u.Some? ==> exists i :: && 0 <= i < |userOrder| && userOrder[i] == u.value
                                    && SenderMatches(st.users[u.value], sender)
                                    && forall j :: 0 <= j < i ==> !SenderMatches(st.users[userOrder[j]], sender)
  {
    if userOrder == [] then None
    else if SenderMatches(st.users[userOrder[0]], sender) then Some(userOrder[0])
    else
      var u := FirstMatchingUser(st, userOrder[1..], sender);
      assert forall i :: 1 <= i < |userOrder| ==> userOrder[i] == userOrder[1..][i - 1];
      u
  }

  /** `handlePingEvent`: a known sender registers (owner, repo) as
      installed by them; an unknown sender changes nothing. */
  function PingSpec(st: DbState, owner: string, repo: string, sender: string, userOrder: seq<Id>): DbState
    requires Enumerates(userOrder, st.users.Keys)
  {
    match FirstMatchingUser(st, userOrder, sender)
    case None => st
    case Some(uid) => st.(installations := st.installations[(owner, repo) := Installation(owner, repo, true, uid)])
  }

  /** The ping handler: `findFirst` then the installation upsert keyed by
      (owner, repo); the update branch keeps the key columns. */
  method HandlePingEvent(db: Db, owner: string, repo: string, sender: string, userOrder: seq<Id>)
    requires Valid(db.State())
    requires Enumerates(userOrder, db.users.Keys)
    modifies db
    ensures db.State() == PingSpec(old(db.State()), owner, repo, sender, userOrder)
  {
    var user := FirstMatchingUser(db.State(), userOrder, sender);
    if user.Some? {
      var key := (owner, repo);
      if key in db.installations {
        var existing := db.installations[key];
        db.installations := db.installations[key := existing.(installed := true, installedBy := user.value)];
      } else {
        db.installations := db.installations[key := Installation(owner, repo, true, user.value)];
      }
    }
  }

  /** Registering a repository keeps the database invariant. */
  lemma PingPreservesValid(st: DbState, owner: string, repo: string, sender: string, userOrder: seq<Id>)
    requires Valid(st)
    requires Enumerates(userOrder, st.users.Keys)
    ensures Valid(PingSpec(st, owner, repo, sender, userOrder))
  {
  }

  /** A ping from a known sender leaves exactly one record for (owner,
      repo), installed by the first matching user; every other record and
      every other table is unchanged. An unknown sender changes nothing. */
  lemma PingRegisters(st: DbState, owner: string, repo: string, sender: string, userOrder: seq<Id>)
    requires Enumerates(userOrder, st.users.Keys)
    ensures var st' := PingSpec(st, owner, repo, sender, userOrder);
      && st' == st.(installations := st'.installations)
      && (forall key :: key in st.installations && key != (owner, repo) ==>
            key in st'.installations && st'.installations[key] == st.installations[key])
      && ((forall k :: k in st.users ==> !SenderMatches(st.users[k], sender)) ==> st' == st)
      && ((exists k :: k in st.users && SenderMatches(st.users[k], sender)) ==>
            && (owner, repo) in st'.installations
            && st'.installations[(owner, repo)].installed
            && st'.installations[(owner, repo)].installedBy in st.users
            && SenderMatches(st.users[st'.installations[(owner, repo)].installedBy], sender))
  {
    FirstMatchingUserFound(st, userOrder, sender);
  }

  /** `findFirst` searches the whole table: with `userOrder` listing every
      user, a user is found exactly when some stored user matches the
      sender. */
  lemma FirstMatchingUserFound(st: DbState, userOrder: seq<Id>, sender: string)
    requires Enumerates(userOrder, st.users.Keys)
    ensures FirstMatchingUser(st, userOrder, sender).Some? <==>
              exists k :: k in st.users && SenderMatches(st.users[k], sender)
  {
    if k :| k in st.users && SenderMatches(st.users[k], sender) {
      var i :| 0 <= i < |userOrder| && userOrder[i] == k;
      assert SenderMatches(st.users[userOrder[i]], sender);
    }
  }

  /** A repeated ping is a no-op. */
  lemma PingIdempotent(st: DbState, owner: string, repo: string, sender: string, userOrder: seq<Id>)
    requires Enumerates(userOrder, st.users.Keys)
    ensures var st' := PingSpec(st, owner, repo, sender, userOrder);
      Enumerates(userOrder, st'.users.Keys) &&
      PingSpec(st', owner, repo, sender, userOrder) == st'
  {
    var st' := PingSpec(st, owner, repo, sender, userOrder);
    assert st'.users == st.users;
    assert FirstMatchingUser(st', userOrder, sender) == FirstMatchingUser(st, userOrder, sender) by {
      FirstMatchingUserOnlyUsers(st, st', userOrder, sender);
    }
  }

  /** The lookup reads only the users table. */
  lemma {:induction false} FirstMatchingUserOnlyUsers(st: DbState, st': DbState, userOrder: seq<Id>, sender: string)
    requires st.users == st'.users
    requires forall i :: 0 <= i < |userOrder| ==> userOrder[i] in st.users
    ensures FirstMatchingUser(st, userOrder, sender) == FirstMatchingUser(st', userOrder, sender)
  {
    if userOrder != [] {
      FirstMatchingUserOnlyUsers(st, st', userOrder[1..], sender);
    }
  }

  // ---------------------------------------------------------- pull_request

  /** The settlement loop over the snapshot rows: one paired update per
      qualifying row, the guard reading the row's snapshot of its bounty,
      the updates applied to the current records. */
  method SettleLoop(db: Db, rows: seq<Row>, owner: string, repo: string, now: Time)
    requires forall i :: 0 <= i < |rows| ==> rows[i].sub.id in db.submissions && rows[i].bounty.id in db.bounties
    modifies db
    ensures db.State() == SettleRows(old(db.State()), rows, owner, repo, now)
  {
    ghost var st0 := db.State();
    for i := 0 to |rows|
      invariant db.State() == SettleRows(st0, rows[..i], owner, repo, now)
    {
      var row := rows[i];
      assert rows[..i + 1][..i] == rows[..i];
      if row.bounty.repoOwner == owner && row.bounty.repoName == repo && row.bounty.status == Active {
        var s := db.submissions[row.sub.id];
        var b := db.bounties[row.bounty.id];
        db.submissions, db.bounties :=
          db.submissions[row.sub.id := Approve(s, now)], db.bounties[row.bounty.id := Solve(b, now, row.sub.userId)];
      }
    }
    assert rows[..|rows|] == rows;
  }

  /** The pull-request handler: nothing unless the PR was merged, then the
      `findMany` snapshot and the settlement loop. */
  method HandlePullRequestEvent(db: Db, action: string, merged: bool, prNumber: int,
                                owner: string, repo: string, order: seq<Id>, now: Time)
    requires Valid(db.State()) && Enumerates(order, db.submissions.Keys)
    modifies db
    ensures Resolvable(old(db.State()), order)
    ensures db.State() == PullRequestSpec(old(db.State()), action, merged, prNumber, owner, repo, order, now)
  {
    EnumeratedResolvable(db.State(), order);
    if action == "closed" && merged {
      var rows := Snapshot(db.State(), order, prNumber);
      SnapshotRows(db.State(), order, prNumber);
      AttachedResolves(db.State(), rows);
      SettleLoop(db, rows, owner, repo, now);
    }
  }

  // -------------------------------------------------------------- dispatch

  /** The only way the signature check affects the request: with a secret
      configured, a header whose bytes differ in length from the expected
      value makes the comparison throw, and the catch answers 500. */
  predicate SignatureThrows(hmac: WebhookSignature.Hmac, secret: Option<string>, body: string, signature: Option<string>) {
    && secret.Some? && secret.value != ""
    && WebhookSignature.Verify(hmac, secret, body, signature) == WebhookSignature.LengthMismatch
  }

  /** The state a delivery is handled in: the invariant holds, `rowOrder`
      lists the submissions and `userOrder` lists the users. */
  predicate Ready(st: DbState, rowOrder: seq<Id>, userOrder: seq<Id>) {
    && Valid(st) && Enumerates(rowOrder, st.submissions.Keys)
    && Enumerates(userOrder, st.users.Keys)
  }

  /** `POST`: the advisory signature check, the body parse (`None` when it
      is not JSON), and the switch on the `x-github-event` header. */
  function WebhookSpec(st: DbState, hmac: WebhookSignature.Hmac, secret: Option<string>, body: string,
                       signature: Option<string>, eventType: Option<string>, event: Option<Event>,
                       rowOrder: seq<Id>, userOrder: seq<Id>, now: Time): Delivery
    requires Ready(st, rowOrder, userOrder)
  {
    if SignatureThrows(hmac, secret, body, signature) || event.None? then Delivery(500, st)
    else
      var e := event.value;
      if eventType == Some("ping") then
        Delivery(200, PingSpec(st, e.ownerLogin, e.repoName, e.senderLogin, userOrder))
      else if eventType == Some("issues") then
        Delivery(200, IssueSpec(st, e.action, NaturalKey(e.issueNumber, e.ownerLogin, e.repoName), now))
      else if eventType == Some("pull_request") then
        EnumeratedResolvable(st, rowOrder);
        Delivery(200, PullRequestSpec(st, e.action, e.merged, e.prNumber, e.ownerLogin, e.repoName, rowOrder, now))
      else Delivery(200, st)
  }

  /** The webhook endpoint. */
  method HandleWebhook(db: Db, hmac: WebhookSignature.Hmac, secret: Option<string>, body: string,
                       signature: Option<string>, eventType: Option<string>, event: Option<Event>,
                       rowOrder: seq<Id>, userOrder: seq<Id>, now: Time)
    returns (status: int)
    requires Ready(db.State(), rowOrder, userOrder)
    modifies db
    ensures Delivery(status, db.State())
      == WebhookSpec(old(db.State()), hmac, secret, body, signature, eventType, event, rowOrder, userOrder, now)
  {
    if secret.Some? && secret.value != "" {
      var outcome := WebhookSignature.Verify(hmac, secret, body, signature);
      if outcome == WebhookSignature.LengthMismatch {
        return 500;
      }
      // an Invalid outcome is only logged
    }
    if event.None? {
      return 500;
    }
    var e := event.value;
    if eventType == Some("ping") {
      HandlePingEvent(db, e.ownerLogin, e.repoName, e.senderLogin, userOrder);
    } else if eventType == Some("issues") {
      var _ := HandleIssueEvent(db, e.action, e.issueNumber, e.ownerLogin, e.repoName, now);
    } else if eventType == Some("pull_request") {
      HandlePullRequestEvent(db, e.action, e.merged, e.prNumber, e.ownerLogin, e.repoName, rowOrder, now);
    }
    status := 200;
  }

  /** Any event type other than the three handled ones changes nothing and
      is answered with success. */
  lemma UnknownEventIsNoop(st: DbState, hmac: WebhookSignature.Hmac, secret: Option<string>, body: string,
                           signature: Option<string>, eventType: Option<string>, event: Option<Event>,
                           rowOrder: seq<Id>, userOrder: seq<Id>, now: Time)
    requires Ready(st, rowOrder, userOrder)
    requires eventType !in {Some("ping"), Some("issues"), Some("pull_request")}
    ensures WebhookSpec(st, hmac, secret, body, signature, eventType, event, rowOrder, userOrder, now).st == st
    ensures WebhookSpec(st, hmac, secret, body, signature, eventType, event, rowOrder, userOrder, now).status
      == if SignatureThrows(hmac, secret, body, signature) || event.None? then 500 else 200
  {
  }

  /** A failed signature check does not stop processing: unless the
      comparison throws, the delivery is handled exactly as one without a
      signature header. */
  lemma SignatureIsAdvisory(st: DbState, hmac: WebhookSignature.Hmac, secret: Option<string>, body: string,
                            signature: Option<string>, eventType: Option<string>, event: Option<Event>,
                            rowOrder: seq<Id>, userOrder: seq<Id>, now: Time)
    requires Ready(st, rowOrder, userOrder)
    requires WebhookSignature.Verify(hmac, secret, body, signature) != WebhookSignature.LengthMismatch
    ensures WebhookSpec(st, hmac, secret, body, signature, eventType, event, rowOrder, userOrder, now)
         == WebhookSpec(st, hmac, secret, body, None, eventType, event, rowOrder, userOrder, now)
  {
  }

  /** With a secret configured, a non-empty signature whose UTF-8 length
      differs from the expected header's fails the whole request with 500
      and changes nothing. */
  lemma LengthMismatchFails(st: DbState, hmac: WebhookSignature.Hmac, secret: string, body: string,
                            signature: string, eventType: Option<string>, event: Option<Event>,
                            rowOrder: seq<Id>, userOrder: seq<Id>, now: Time)
    requires Ready(st, rowOrder, userOrder)
    requires secret != "" && signature != ""
    requires |WebhookSignature.Utf8(signature)| != 7 + 2 * |hmac(secret, body)|
    ensures WebhookSpec(st, hmac, Some(secret), body, Some(signature), eventType, event, rowOrder, userOrder, now)
         == Delivery(500, st)
  {
  }

  /** Readiness only depends on the invariant, the submission ids and the
      users. */
  lemma ReadyKept(st: DbState, st': DbState, rowOrder: seq<Id>, userOrder: seq<Id>)
    requires Ready(st, rowOrder, userOrder) && Valid(st')
    requires st'.submissions.Keys == st.submissions.Keys && st'.users == st.users
    ensures Ready(st', rowOrder, userOrder)
  {
  }

  /** Each handler keeps readiness, the submission ids and the users. */
  lemma HandlerKeepsReady(st: DbState, eventType: Option<string>, e: Event,
                          rowOrder: seq<Id>, userOrder: seq<Id>, now: Time) returns (st': DbState)
    requires Ready(st, rowOrder, userOrder)
    ensures Ready(st', rowOrder, userOrder) && st'.submissions.Keys == st.submissions.Keys && st'.users == st.users
    ensures eventType == Some("ping") ==> st' == PingSpec(st, e.ownerLogin, e.repoName, e.senderLogin, userOrder)
    ensures eventType == Some("issues") ==> st' == IssueSpec(st, e.action, NaturalKey(e.issueNumber, e.ownerLogin, e.repoName), now)
    ensures eventType == Some("pull_request") ==>
      (Resolvable(st, rowOrder) &&
       st' == PullRequestSpec(st, e.action, e.merged, e.prNumber, e.ownerLogin, e.repoName, rowOrder, now))
  {
    if eventType == Some("ping") {
      st' := PingSpec(st, e.ownerLogin, e.repoName, e.senderLogin, userOrder);
      PingKeepsReady(st, e.ownerLogin, e.repoName, e.senderLogin, rowOrder, userOrder);
    } else if eventType == Some("issues") {
      st' := IssueSpec(st, e.action, NaturalKey(e.issueNumber, e.ownerLogin, e.repoName), now);
      IssueKeepsReady(st, e.action, NaturalKey(e.issueNumber, e.ownerLogin, e.repoName), rowOrder, userOrder, now);
    } else if eventType == Some("pull_request") {
      EnumeratedResolvable(st, rowOrder);
      st' := PullRequestSpec(st, e.action, e.merged, e.prNumber, e.ownerLogin, e.repoName, rowOrder, now);
      PullRequestKeepsReady(st, e.action, e.merged, e.prNumber, e.ownerLogin, e.repoName, rowOrder, userOrder, now);
    } else {
      st' := st;
    }
  }

  lemma PingKeepsReady(st: DbState, owner: string, repo: string, sender: string, rowOrder: seq<Id>, userOrder: seq<Id>)
    requires Ready(st, rowOrder, userOrder)
    ensures var st' := PingSpec(st, owner, repo, sender, userOrder);
      Ready(st', rowOrder, userOrder) && st'.submissions.Keys == st.submissions.Keys && st'.users == st.users
  {
    var st' := PingSpec(st, owner, repo, sender, userOrder);
    PingPreservesValid(st, owner, repo, sender, userOrder);
    ReadyKept(st, st', rowOrder, userOrder);
  }

  lemma IssueKeepsReady(st: DbState, action: string, key: NaturalKey, rowOrder: seq<Id>, userOrder: seq<Id>, now: Time)
    requires Ready(st, rowOrder, userOrder)
    ensures var st' := IssueSpec(st, action, key, now);
      Ready(st', rowOrder, userOrder) && st'.submissions.Keys == st.submissions.Keys && st'.users == st.users
  {
    if action == "closed" {
      var st' := st.(bounties := ClosedBounties(st.bounties, key, now));
      KeepsValidBounties(st, st'.bounties);
      ReadyKept(st, st', rowOrder, userOrder);
    }
  }

  lemma PullRequestKeepsReady(st: DbState, action: string, merged: bool, prNumber: int, owner: string, repo: string,
                              rowOrder: seq<Id>, userOrder: seq<Id>, now: Time)
    requires Ready(st, rowOrder, userOrder) && Resolvable(st, rowOrder)
    ensures var st' := PullRequestSpec(st, action, merged, prNumber, owner, repo, rowOrder, now);
      Ready(st', rowOrder, userOrder) && st'.submissions.Keys == st.submissions.Keys && st'.users == st.users
  {
    var st' := PullRequestSpec(st, action, merged, prNumber, owner, repo, rowOrder, now);
    PullRequestPreservesValid(st, action, merged, prNumber, owner, repo, rowOrder, now);
    ReadyKept(st, st', rowOrder, userOrder);
  }

  /** Every delivery keeps the database invariant and the orders it is
      handled in. */
  lemma WebhookPreservesReady(st: DbState, hmac: WebhookSignature.Hmac, secret: Option<string>, body: string,
                              signature: Option<string>, eventType: Option<string>, event: Option<Event>,
                              rowOrder: seq<Id>, userOrder: seq<Id>, now: Time)
    requires Ready(st, rowOrder, userOrder)
    ensures var d := WebhookSpec(st, hmac, secret, body, signature, eventType, event, rowOrder, userOrder, now);
      Ready(d.st, rowOrder, userOrder) && d.st.submissions.Keys == st.submissions.Keys && d.st.users == st.users
  {
    if !SignatureThrows(hmac, secret, body, signature) && event.Some? {
      var st' := HandlerKeepsReady(st, eventType, event.value, rowOrder, userOrder, now);
    }
  }

  /** GitHub redelivers events: handling the same delivery a second time,
      at any later moment, answers the same and changes nothing more. */
  lemma WebhookRedeliveryIdempotent(st: DbState, hmac: WebhookSignature.Hmac, secret: Option<string>, body: string,
                                    signature: Option<string>, eventType: Option<string>, event: Option<Event>,
                                    rowOrder: seq<Id>, userOrder: seq<Id>, now: Time, later: Time)
    requires Ready(st, rowOrder, userOrder)
    ensures var d := WebhookSpec(st, hmac, secret, body, signature, eventType, event, rowOrder, userOrder, now);
      Ready(d.st, rowOrder, userOrder) &&
      WebhookSpec(d.st, hmac, secret, body, signature, eventType, event, rowOrder, userOrder, later) == d
  {
    WebhookPreservesReady(st, hmac, secret, body, signature, eventType, event, rowOrder, userOrder, now);
    if !SignatureThrows(hmac, secret, body, signature) && event.Some? {
      var e := event.value;
      if eventType == Some("ping") {
        PingIdempotent(st, e.ownerLogin, e.repoName, e.senderLogin, userOrder);
      } else if eventType == Some("issues") {
        IssueIdempotent(st, e.action, NaturalKey(e.issueNumber, e.ownerLogin, e.repoName), now, later);
      } else if eventType == Some("pull_request") {
        PullRequestIdempotent(st, e.action, e.merged, e.prNumber, e.ownerLogin, e.repoName, rowOrder, now, later);
      }
    }
  }
}
