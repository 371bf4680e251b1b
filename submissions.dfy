/**
 * `POST /api/bounties/submissions`, by which a user claims a bounty with a
 * pull request, and `GET /api/bounties/submissions`, which lists the
 * submissions of one bounty or of the caller. A claim is recorded PENDING;
 * only the webhook's settlement approves it.
 */
module SubmissionRoutes {
  import opened Wrappers
  import opened JsValues
  import opened Store
  import opened Auth
  import opened Listing
  import opened BountyRoutes

  /** The JSON body of a claim. */
  datatype SubmissionBody = SubmissionBody(bountyId: Value, prUrl: Value, prNumber: Value)

  /** The lookup by the body's `bountyId`: a string finds the bounty with
      that id or none; the database rejects any other value. */
  datatype Lookup = Found(id: Id) | NotFound | BadId

  function LookupBounty(st: DbState, v: Value): (r: Lookup)
    ensures r.Found? <==> v.Str? && exists k :: k in st.bounties && IdText(k) == v.s
    ensures r.Found? ==> r.id in st.bounties && IdText(r.id) == v.s
    ensures r.BadId? <==> !v.Str?
  {
    match v
    case Str(s) =>
      (match FindByText(st.bounties, s)
       case Some(k) => Found(k)
       case None => NotFound)
    case _ => BadId
  }

  /** The caller already has a submission for the bounty. */
  predicate HasSubmitted(st: DbState, bountyId: Id, userId: Id) {
    exists k :: k in st.submissions && st.submissions[k].bountyId == bountyId && st.submissions[k].userId == userId
  }

  /** The route after authentication: 400 for a missing field, 404 for an
      unknown bounty, 400 for a bounty that is not ACTIVE, 409 for a second
      claim by the same user, 500 when the database rejects a value, else
      the new PENDING submission. */
  function CreateSubmission(st: DbState, caller: Id, body: SubmissionBody, now: Time): Posted<Submission> {
    if !Truthy(body.bountyId) || !Truthy(body.prUrl) || !Truthy(body.prNumber) then Posted(400, None, st)
    else match LookupBounty(st, body.bountyId)
      case BadId => Posted(500, None, st)
      case NotFound => Posted(404, None, st)
      case Found(k) =>
        if st.bounties[k].status != Active then Posted(400, None, st)
        else if HasSubmitted(st, k, caller) then Posted(409, None, st)
        else
          var pr := ParseInt(body.prNumber);
          if pr.None? || !body.prUrl.Str? then Posted(500, None, st)
          else
            var s := Submission(st.nextId, k, caller, body.prUrl.s, pr.value, Pending, false, None, now);
            Posted(200, Some(s), st.(submissions := st.submissions[st.nextId := s], nextId := st.nextId + 1))
  }

  function PostSubmissionSpec(st: DbState, oracle: Oracle, header: Option<string>,
                              body: Option<SubmissionBody>, now: Time): Posted<Submission>
    requires Valid(st)
  {
    var a := AuthSpec(st, oracle, header);
    match a.result
    case Denied(status) => Posted(status, None, a.st)
    case Granted(caller) =>
      if body.None? then Posted(500, None, a.st) else CreateSubmission(a.st, caller, body.value, now)
  }

  method InsertSubmission(db: Db, caller: Id, body: SubmissionBody, now: Time)
    returns (status: int, created: Option<Submission>)
    modifies db
    ensures Posted(status, created, db.State()) == CreateSubmission(old(db.State()), caller, body, now)
  {
    if !Truthy(body.bountyId) || !Truthy(body.prUrl) || !Truthy(body.prNumber) {
      return 400, None;
    }
    var found := LookupBounty(db.State(), body.bountyId);
    if found.BadId? {
      return 500, None;
    }
    if found.NotFound? {
      return 404, None;
    }
    var k := found.id;
    if db.bounties[k].status != Active {
      return 400, None;
    }
    if exists j :: j in db.submissions && db.submissions[j].bountyId == k && db.submissions[j].userId == caller {
      return 409, None;
    }
    var pr := ParseInt(body.prNumber);
    if pr.None? || !body.prUrl.Str? {
      return 500, None;
    }
    var s := Submission(db.nextId, k, caller, body.prUrl.s, pr.value, Pending, false, None, now);
    db.submissions := db.submissions[db.nextId := s];
    db.nextId := db.nextId + 1;
    return 200, Some(s);
  }

  method PostSubmission(db: Db, oracle: Oracle, header: Option<string>, body: Option<SubmissionBody>, now: Time)
    returns (status: int, created: Option<Submission>)
    requires Valid(db.State())
    modifies db
    ensures Posted(status, created, db.State()) == PostSubmissionSpec(old(db.State()), oracle, header, body, now)
  {
    var auth := Authenticate(db, oracle, header);
    if auth.Denied? {
      return auth.status, None;
    }
    if body.None? {
      return 500, None;
    }
    status, created := InsertSubmission(db, auth.user, body.value, now);
  }

  /** Adding a fresh PENDING submission for a stored bounty, by a user
      without one for it, keeps the invariant. */
  lemma AddSubmissionValid(st: DbState, s: Submission)
    requires Valid(st)
    requires s.id == st.nextId && s.bountyId in st.bounties
    requires s.status == Pending && !s.isVerified && s.verifiedAt.None?
    requires !HasSubmitted(st, s.bountyId, s.userId)
    ensures Valid(st.(submissions := st.submissions[s.id := s], nextId := st.nextId + 1))
  {
    assert forall k :: k in st.submissions ==>
      (st.submissions[k].bountyId, st.submissions[k].userId) != (s.bountyId, s.userId);
    KeepsValidNewSubmission(st, s);
  }

  /** A claim either adds one PENDING submission -- the caller's, for an
      ACTIVE bounty named by the body, with the pull request number
      `parseInt` reads, the caller's first for that bounty -- or changes
      nothing; each refusal has its status. */
  lemma CreateSubmissionShape(st: DbState, caller: Id, body: SubmissionBody, now: Time)
    ensures var r := CreateSubmission(st, caller, body, now);
      var found := LookupBounty(st, body.bountyId);
      var present := Truthy(body.bountyId) && Truthy(body.prUrl) && Truthy(body.prNumber);
      && r.status in {200, 400, 404, 409, 500}
      && (r.status == 200 <==> r.row.Some?)
      && (r.status != 200 ==> r.st == st)
      && (!present ==> r.status == 400)
      && (present && found.NotFound? ==> r.status == 404)
      && (present && found.Found? && st.bounties[found.id].status != Active ==> r.status == 400)
      && (present && found.Found? && st.bounties[found.id].status == Active ==>
            (r.status == 409 <==> HasSubmitted(st, found.id, caller)))
      && (r.row.Some? ==>
            var s := r.row.value;
            && s.status == Pending && s.userId == caller && s.createdAt == now
            && s.id == st.nextId && !s.isVerified && s.verifiedAt.None?
            && body.bountyId == Str(IdText(s.bountyId))
            && s.bountyId in st.bounties && st.bounties[s.bountyId].status == Active
            && !HasSubmitted(st, s.bountyId, caller)
            && ParseInt(body.prNumber) == Some(s.prNumber) && body.prUrl == Str(s.prUrl)
            && r.st == st.(submissions := st.submissions[s.id := s], nextId := st.nextId + 1))
  {
    var r := CreateSubmission(st, caller, body, now);
    if !Truthy(body.bountyId) || !Truthy(body.prUrl) || !Truthy(body.prNumber) {
      assert r == Posted(400, None, st);
    } else if LookupBounty(st, body.bountyId).Found? {
      var k := LookupBounty(st, body.bountyId).id;
      if st.bounties[k].status == Active && !HasSubmitted(st, k, caller)
         && ParseInt(body.prNumber).Some? && body.prUrl.Str? {
        var s := Submission(st.nextId, k, caller, body.prUrl.s, ParseInt(body.prNumber).value, Pending, false, None, now);
        assert r == Posted(200, Some(s), st.(submissions := st.submissions[st.nextId := s], nextId := st.nextId + 1));
      } else {
        assert r.row.None? && r.st == st;
      }
    } else {
      assert r.row.None? && r.st == st;
    }
  }

  /** A claim keeps the invariant, and the submission it adds takes an id
      no row had. */
  lemma CreateSubmissionOutcome(st: DbState, caller: Id, body: SubmissionBody, now: Time)
    requires Valid(st)
    ensures var r := CreateSubmission(st, caller, body, now);
      && Valid(r.st)
      && (r.row.Some? ==> r.row.value.id !in st.submissions)
  {
    CreateSubmissionShape(st, caller, body, now);
    var r := CreateSubmission(st, caller, body, now);
    if r.row.Some? {
      AddSubmissionValid(st, r.row.value);
    }
  }

  /** At most one submission per user and bounty: a second claim by the
      same user for the same bounty, with any pull request, is a 409 that
      changes nothing. */
  lemma CreateSubmissionRepeated(st: DbState, caller: Id, body: SubmissionBody, body2: SubmissionBody,
                                 now: Time, later: Time)
    requires Valid(st)
    requires CreateSubmission(st, caller, body, now).status == 200
    requires body2.bountyId == body.bountyId && Truthy(body2.prUrl) && Truthy(body2.prNumber)
    ensures var st1 := CreateSubmission(st, caller, body, now).st;
      CreateSubmission(st1, caller, body2, later) == Posted(409, None, st1)
  {
    CreateSubmissionShape(st, caller, body, now);
    CreateSubmissionOutcome(st, caller, body, now);
    var r := CreateSubmission(st, caller, body, now);
    var s := r.row.value;
    assert s.id in r.st.submissions && r.st.submissions[s.id] == s;
    assert HasSubmitted(r.st, s.bountyId, caller);
    var found := LookupBounty(r.st, body.bountyId);
    assert found.Found? && IdText(found.id) == IdText(s.bountyId);
    IdTextInjective(found.id, s.bountyId);
  }

  /** The whole POST route keeps the invariant; without a Bearer header it
      is a 401 that writes nothing; a created submission belongs to the user
      row holding the verified identity. */
  lemma PostSubmissionOutcome(st: DbState, oracle: Oracle, header: Option<string>,
                              body: Option<SubmissionBody>, now: Time)
    requires Valid(st)
    ensures var r := PostSubmissionSpec(st, oracle, header, body, now);
      && Valid(r.st)
      && (BearerToken(header).None? ==> r == Posted(401, None, st))
      && (r.row.Some? ==>
            && BearerToken(header).Some?
            && oracle(BearerToken(header).value).Some?
            && r.row.value.status == Pending
            && r.row.value.userId in r.st.users
            && r.st.users[r.row.value.userId].privyId == oracle(BearerToken(header).value).value.id)
  {
    AuthSound(st, oracle, header);
    var a := AuthSpec(st, oracle, header);
    if a.result.Granted? && body.Some? {
      CreateSubmissionShape(a.st, a.result.user, body.value, now);
      CreateSubmissionOutcome(a.st, a.result.user, body.value, now);
    }
  }

  // ---------------------------------------------------------------------
  // GET /api/bounties/submissions

  /** `where: { bountyId }` with the id given as text. */
  function ForBountyText(bountyId: string): Submission -> bool {
    (s: Submission) => IdText(s.bountyId) == bountyId
  }

  function ByUser(userId: Id): Submission -> bool {
    (s: Submission) => s.userId == userId
  }

  /** The filter the query runs: the named bounty's submissions when a
      `bountyId` parameter is given, otherwise the caller's. */
  function SubmissionFilter(caller: Id, bountyId: Option<string>): Submission -> bool {
    if bountyId.Some? && bountyId.value != "" then ForBountyText(bountyId.value) else ByUser(caller)
  }

  /** The listed submissions, newest first. */
  function ListSubmissions(st: DbState, caller: Id, subOrder: seq<Id>, bountyId: Option<string>): seq<Submission>
    requires forall i :: 0 <= i < |subOrder| ==> subOrder[i] in st.submissions
  {
    SortBy(Filter(Rows(st.submissions, subOrder), SubmissionFilter(caller, bountyId)), NewestSubmissionFirst)
  }

  /** With a `bountyId` the list is exactly that bounty's submissions,
      without it exactly the caller's; either way newest first. */
  lemma ListSubmissionsOutcome(st: DbState, caller: Id, subOrder: seq<Id>, bountyId: Option<string>)
    requires Enumerates(subOrder, st.submissions.Keys)
    ensures var subs := ListSubmissions(st, caller, subOrder, bountyId);
      var byBounty := bountyId.Some? && bountyId.value != "";
      && (forall i :: 0 <= i < |subs| ==>
            && subs[i] in st.submissions.Values
            && (byBounty ==> IdText(subs[i].bountyId) == bountyId.value)
            && (!byBounty ==> subs[i].userId == caller))
      && (forall i, j :: 0 <= i < j < |subs| ==> subs[i].createdAt >= subs[j].createdAt)
      && (forall k :: k in st.submissions && SubmissionFilter(caller, bountyId)(st.submissions[k]) ==>
            st.submissions[k] in subs)
  {
    var subs := ListSubmissions(st, caller, subOrder, bountyId);
    var p := SubmissionFilter(caller, bountyId);
    NewestFirstTotal();
    SelectAll(st.submissions, subOrder, p, NewestSubmissionFirst);
    SelectOutcome(st.submissions, subOrder, p, NewestSubmissionFirst, 0, |subOrder|);
    forall i | 0 <= i < |subs| ensures subs[i] in st.submissions.Values && p(subs[i]) {
      assert subs[i] in subs;
    }
    forall k | k in st.submissions && p(st.submissions[k]) ensures st.submissions[k] in subs {
      var j :| 0 <= j < |subOrder| && subOrder[j] == k;
    }
  }

  /** The list of a bounty given by its own id is that bounty's
      submissions. */
  lemma ListForBounty(st: DbState, caller: Id, subOrder: seq<Id>, bountyId: Id)
    requires Enumerates(subOrder, st.submissions.Keys)
    ensures ListSubmissions(st, caller, subOrder, Some(IdText(bountyId))) == SubmissionsOf(st, subOrder, bountyId)
  {
    var a := ForBountyText(IdText(bountyId));
    var b := ForBounty(bountyId);
    forall s: Submission ensures a(s) == b(s) {
      if IdText(s.bountyId) == IdText(bountyId) {
        IdTextInjective(s.bountyId, bountyId);
      }
    }
    assert Filter(Rows(st.submissions, subOrder), a) == Filter(Rows(st.submissions, subOrder), b) by {
      FilterSame(Rows(st.submissions, subOrder), a, b);
    }
  }

  function ListSubmissionsRouteSpec(st: DbState, oracle: Oracle, header: Option<string>,
                                    subOrder: seq<Id>, bountyId: Option<string>): Answer<Submission>
    requires Valid(st) && Enumerates(subOrder, st.submissions.Keys)
  {
    AuthSound(st, oracle, header);
    var a := AuthSpec(st, oracle, header);
    match a.result
    case Denied(code) => Answer(code, [], a.st)
    case Granted(caller) => Answer(200, ListSubmissions(a.st, caller, subOrder, bountyId), a.st)
  }

  method ListSubmissionsRoute(db: Db, oracle: Oracle, header: Option<string>, subOrder: seq<Id>, bountyId: Option<string>)
    returns (code: int, rows: seq<Submission>)
    requires Valid(db.State()) && Enumerates(subOrder, db.submissions.Keys)
    modifies db
    ensures Answer(code, rows, db.State()) == ListSubmissionsRouteSpec(old(db.State()), oracle, header, subOrder, bountyId)
  {
    ghost var st0 := db.State();
    var auth := Authenticate(db, oracle, header);
    AuthSound(st0, oracle, header);
    if auth.Denied? {
      return auth.status, [];
    }
    return 200, ListSubmissions(db.State(), auth.user, subOrder, bountyId);
  }
}
