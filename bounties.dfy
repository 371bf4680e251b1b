/**
 * The bounty routes: `POST /api/bounties` creates an ACTIVE bounty for a
 * GitHub issue, and three list queries read the same table back:
 * `GET /api/bounties` (by status, newest first, paged), `GET
 * /api/bounties/my` (the caller's own bounties) and `GET
 * /api/bounties/solved` (the caller's approved submissions, shown as
 * bounties). The protected routes start with the Bearer-token
 * authentication of module Auth, whose user sync may itself write rows.
 */
module BountyRoutes {
  import opened Wrappers
  import opened JsValues
  import opened Store
  import opened Auth
  import opened Listing

  // ---------------------------------------------------------------------
  // POST /api/bounties

  /** The JSON body of a create request, property by property. */
  datatype BountyBody = BountyBody(
    githubIssueId: Value,
    githubRepoOwner: Value,
    githubRepoName: Value,
    title: Value,
    description: Value,
    bountyAmount: Value,
    githubIssueUrl: Value)

  /** Every required property is truthy: an amount of 0 or an empty string
      counts as missing. */
  predicate HasRequiredFields(b: BountyBody) {
    && Truthy(b.githubIssueId) && Truthy(b.githubRepoOwner) && Truthy(b.githubRepoName)
    && Truthy(b.title) && Truthy(b.description) && Truthy(b.bountyAmount)
    && Truthy(b.githubIssueUrl)
  }

  const BountyLabels: seq<string> := ["bounty", "usdc-reward"]

  /** A write's response: its status, the row it created, and the database
      after it. */
  datatype Posted<T> = Posted(status: int, row: Option<T>, st: DbState)

  /** The natural key the uniqueness lookup is made with; `None` when the
      lookup itself fails (a `NaN` issue number, or an owner or repository
      that is not a string). */
  function BodyKey(b: BountyBody): Option<NaturalKey> {
    var issue := ParseInt(b.githubIssueId);
    if issue.Some? && b.githubRepoOwner.Str? && b.githubRepoName.Str? then
      Some(NaturalKey(issue.value, b.githubRepoOwner.s, b.githubRepoName.s))
    else None
  }

  /** The route after authentication: 400 for a missing field, 409 for an
      issue that already has a bounty, 500 when the database rejects the
      values, else the new ACTIVE bounty. */
  function CreateBounty(st: DbState, caller: Id, body: BountyBody, now: Time): Posted<Bounty> {
    if !HasRequiredFields(body) then Posted(400, None, st)
    else match BodyKey(body)
      case None => Posted(500, None, st)
      case Some(key) =>
        if HasKey(st, key) then Posted(409, None, st)
        else
          var amount := ParseAmount(body.bountyAmount);
          if amount.None? || !body.title.Str? || !body.description.Str? || !body.githubIssueUrl.Str? then
            Posted(500, None, st)
          else
            var b := Bounty(st.nextId, key.issue, key.owner, key.repo, body.title.s, body.description.s,
                            amount.value, Active, false, None, None, caller, body.githubIssueUrl.s,
                            BountyLabels, now);
            Posted(200, Some(b), st.(bounties := st.bounties[st.nextId := b], nextId := st.nextId + 1))
  }

  /** The whole route: authentication first, then the body (unreadable
      JSON is a 500), then the create. */
  function PostBountySpec(st: DbState, oracle: Oracle, header: Option<string>,
                          body: Option<BountyBody>, now: Time): Posted<Bounty>
    requires Valid(st)
  {
    var a := AuthSpec(st, oracle, header);
    match a.result
    case Denied(status) => Posted(status, None, a.st)
    case Granted(caller) =>
      if body.None? then Posted(500, None, a.st) else CreateBounty(a.st, caller, body.value, now)
  }

  method InsertBounty(db: Db, caller: Id, body: BountyBody, now: Time)
    returns (status: int, created: Option<Bounty>)
    modifies db
    ensures Posted(status, created, db.State()) == CreateBounty(old(db.State()), caller, body, now)
  {
    if !HasRequiredFields(body) {
      return 400, None;
    }
    var key := BodyKey(body);
    if key.None? {
      return 500, None;
    }
    if exists k :: k in db.bounties && KeyOf(db.bounties[k]) == key.value {
      return 409, None;
    }
    var amount := ParseAmount(body.bountyAmount);
    if amount.None? || !body.title.Str? || !body.description.Str? || !body.githubIssueUrl.Str? {
      return 500, None;
    }
    var b := Bounty(db.nextId, key.value.issue, key.value.owner, key.value.repo, body.title.s,
                    body.description.s, amount.value, Active, false, None, None, caller,
                    body.githubIssueUrl.s, BountyLabels, now);
    db.bounties := db.bounties[db.nextId := b];
    db.nextId := db.nextId + 1;
    return 200, Some(b);
  }

  method PostBounty(db: Db, oracle: Oracle, header: Option<string>, body: Option<BountyBody>, now: Time)
    returns (status: int, created: Option<Bounty>)
    requires Valid(db.State())
    modifies db
    ensures Posted(status, created, db.State()) == PostBountySpec(old(db.State()), oracle, header, body, now)
  {
    var auth := Authenticate(db, oracle, header);
    if auth.Denied? {
      return auth.status, None;
    }
    if body.None? {
      return 500, None;
    }
    status, created := InsertBounty(db, auth.user, body.value, now);
  }

  /** Adding a fresh ACTIVE bounty under an unused natural key keeps the
      invariant. */
  lemma AddBountyValid(st: DbState, b: Bounty)
    requires Valid(st)
    requires b.id == st.nextId && b.status == Active && !b.isSolved && b.solvedAt.None? && b.solvedBy.None?
    requires !HasKey(st, KeyOf(b))
    ensures Valid(st.(bounties := st.bounties[b.id := b], nextId := st.nextId + 1))
  {
    assert forall k :: k in st.bounties ==> KeyOf(st.bounties[k]) != KeyOf(b);
    KeepsValidNewBounty(st, b);
  }

  /** A create keeps the database invariant. It either adds exactly one
      bounty -- ACTIVE, labelled, posted by the caller, under a natural key
      no bounty had -- or changes nothing; a missing field is a 400 and an
      existing key a 409. */
  lemma CreateBountyOutcome(st: DbState, caller: Id, body: BountyBody, now: Time)
    requires Valid(st)
    ensures var r := CreateBounty(st, caller, body, now);
      && Valid(r.st)
      && r.status in {200, 400, 409, 500}
      && (r.status == 200 <==> r.row.Some?)
      && (r.status != 200 ==> r.st == st)
      && (!HasRequiredFields(body) ==> r.status == 400)
      && (HasRequiredFields(body) && BodyKey(body).Some? ==>
            (r.status == 409 <==> HasKey(st, BodyKey(body).value)))
      && (r.row.Some? ==>
            var b := r.row.value;
            && b.status == Active && b.labels == BountyLabels && b.posterId == caller
            && b.solvedBy.None? && b.createdAt == now
            && Some(KeyOf(b)) == BodyKey(body) && !HasKey(st, KeyOf(b))
            && ParseAmount(body.bountyAmount) == Some(b.amount)
            && b.id !in st.bounties
            && r.st == st.(bounties := st.bounties[b.id := b], nextId := st.nextId + 1))
  {
    var r := CreateBounty(st, caller, body, now);
    if r.row.Some? {
      AddBountyValid(st, r.row.value);
    }
  }

  /** The natural key stays unique: repeating a create that succeeded, by
      anyone and at any time, is a 409 that changes nothing. */
  lemma CreateBountyRepeated(st: DbState, caller: Id, caller2: Id, body: BountyBody, now: Time, later: Time)
    requires Valid(st)
    requires CreateBounty(st, caller, body, now).status == 200
    ensures var st1 := CreateBounty(st, caller, body, now).st;
      CreateBounty(st1, caller2, body, later) == Posted(409, None, st1)
  {
    CreateBountyOutcome(st, caller, body, now);
    var r := CreateBounty(st, caller, body, now);
    var b := r.row.value;
    assert b.id in r.st.bounties && KeyOf(r.st.bounties[b.id]) == BodyKey(body).value;
  }

  /** The whole POST route keeps the invariant; without a Bearer header it
      is a 401 that writes nothing; a created bounty's poster is the user
      row holding the verified identity. */
  lemma PostBountyOutcome(st: DbState, oracle: Oracle, header: Option<string>, body: Option<BountyBody>, now: Time)
    requires Valid(st)
    ensures var r := PostBountySpec(st, oracle, header, body, now);
      && Valid(r.st)
      && (BearerToken(header).None? ==> r == Posted(401, None, st))
      && (r.row.Some? ==>
            && BearerToken(header).Some?
            && oracle(BearerToken(header).value).Some?
            && r.row.value.status == Active
            && r.row.value.posterId in r.st.users
            && r.st.users[r.row.value.posterId].privyId == oracle(BearerToken(header).value).value.id)
  {
    AuthSound(st, oracle, header);
    var a := AuthSpec(st, oracle, header);
    if a.result.Granted? && body.Some? {
      CreateBountyOutcome(a.st, a.result.user, body.value, now);
    }
  }

  // ---------------------------------------------------------------------
  // Shared by the list queries

  /** The `status` text of a query as the enum it names; any other text is
      rejected by the database (`None`). */
  function ParseStatus(s: string): Option<BountyStatus> {
    if s == "ACTIVE" then Some(Active)
    else if s == "SOLVED" then Some(Solved)
    else if s == "EXPIRED" then Some(Expired)
    else if s == "CANCELLED" then Some(Cancelled)
    else None
  }

  function StatusName(s: BountyStatus): (r: string)
    ensures ParseStatus(r) == Some(s)
  {
    match s
    case Active => "ACTIVE"
    case Solved => "SOLVED"
    case Expired => "EXPIRED"
    case Cancelled => "CANCELLED"
  }

  /** Only the four enum names parse, each to the status it names. */
  lemma ParseStatusNames(s: string)
    ensures ParseStatus(s).Some? <==> s in {"ACTIVE", "SOLVED", "EXPIRED", "CANCELLED"}
    ensures ParseStatus(s).Some? ==> StatusName(ParseStatus(s).value) == s
  {
  }

  /** A list query's response: its status and its rows. */
  datatype Query<T> = Query(status: int, rows: seq<T>)

  /** A listed bounty and, for a SOLVED bounty with a solver, the solver
      lookup's answer: the user row, or `null` when there is none. */
  datatype Listed = Listed(bounty: Bounty, solver: Option<Option<User>>)

  function WithSolver(st: DbState, b: Bounty): (l: Listed)
    ensures l.bounty == b
    ensures l.solver.Some? <==> b.status == Solved && b.solvedBy.Some?
    ensures l.solver.Some? ==> (l.solver.value.Some? <==> b.solvedBy.value in st.users)
    ensures l.solver.Some? && l.solver.value.Some? ==> l.solver.value.value.id == b.solvedBy.value || !Valid(st)
  {
    if b.status == Solved && b.solvedBy.Some? then
      Listed(b, Some(if b.solvedBy.value in st.users then Some(st.users[b.solvedBy.value]) else None))
    else Listed(b, None)
  }

  /** Each bounty of a page with its solver lookup. */
  function WithSolvers(st: DbState, page: seq<Bounty>): (rows: seq<Listed>)
    ensures |rows| == |page|
    ensures forall i :: 0 <= i < |rows| ==> rows[i] == WithSolver(st, page[i])
  {
    seq(|page|, i requires 0 <= i < |page| => WithSolver(st, page[i]))
  }

  predicate NewestFirst(a: Bounty, b: Bounty) { a.createdAt >= b.createdAt }

  predicate NewestSubmissionFirst(a: Submission, b: Submission) { a.createdAt >= b.createdAt }

  lemma NewestFirstTotal()
    ensures TotalPreorder(NewestFirst) && TotalPreorder(NewestSubmissionFirst)
  {
  }

  // ---------------------------------------------------------------------
  // GET /api/bounties

  /** The `where: { status }` filter. */
  function StatusIs(s: BountyStatus): Bounty -> bool {
    (b: Bounty) => b.status == s
  }

  /** The public list for parsed parameters: an unknown status, a limit or
      offset that is not a number, or a negative offset makes the database
      call fail (500); otherwise the page of bounties with that status,
      newest first. `order` is the table's row order, which the sort keeps
      among bounties created at the same time. */
  function BountyQuery(st: DbState, order: seq<Id>, wanted: Option<BountyStatus>,
                       take: Option<int>, skip: Option<int>): Query<Listed>
    requires forall i :: 0 <= i < |order| ==> order[i] in st.bounties
  {
    if wanted.None? || take.None? || skip.None? || skip.value < 0 then Query(500, [])
    else
      var page := Select(st.bounties, order, StatusIs(wanted.value), NewestFirst, skip.value, take.value);
      Query(200, WithSolvers(st, page))
  }

  /** The public list: `status` (default ACTIVE), `limit` (default 20) and
      `offset` (default 0), read with `parseInt`. */
  function ListBounties(st: DbState, order: seq<Id>, status: Option<string>,
                        limit: Option<string>, offset: Option<string>): Query<Listed>
    requires forall i :: 0 <= i < |order| ==> order[i] in st.bounties
  {
    BountyQuery(st, order, ParseStatus(ParamOr(status, "ACTIVE")),
                ParseIntString(ParamOr(limit, "20")), ParseIntString(ParamOr(offset, "0")))
  }

  /** Every row of a page is a stored bounty with the requested status; the
      page is newest first; a non-negative limit bounds it; a first page at
      least as large as the table holds every matching bounty. */
  lemma BountyQueryOutcome(st: DbState, order: seq<Id>, wanted: Option<BountyStatus>,
                           take: Option<int>, skip: Option<int>)
    requires Enumerates(order, st.bounties.Keys)
    ensures var r := BountyQuery(st, order, wanted, take, skip);
      && (r.status == 500 <==> wanted.None? || take.None? || skip.None? || skip.value < 0)
      && (r.status != 500 ==> r.status == 200)
      && (r.status == 500 ==> r.rows == [])
      && (r.status == 200 ==>
            && (forall i :: 0 <= i < |r.rows| ==>
                  r.rows[i].bounty.status == wanted.value && r.rows[i].bounty in st.bounties.Values)
            && (forall i, j :: 0 <= i < j < |r.rows| ==> r.rows[i].bounty.createdAt >= r.rows[j].bounty.createdAt)
            && (take.value >= 0 ==> |r.rows| <= take.value)
            && (skip.value == 0 && take.value >= |order| ==>
                  forall k :: k in st.bounties && st.bounties[k].status == wanted.value ==>
                    exists i :: 0 <= i < |r.rows| && r.rows[i].bounty == st.bounties[k]))
  {
    if wanted.Some? && take.Some? && skip.Some? && skip.value >= 0 {
      BountyPageOutcome(st, order, wanted.value, take.value, skip.value);
    }
  }

  /** `BountyQueryOutcome` for a query that reaches the database. */
  lemma BountyPageOutcome(st: DbState, order: seq<Id>, wanted: BountyStatus, take: int, skip: nat)
    requires Enumerates(order, st.bounties.Keys)
    ensures var rows := BountyQuery(st, order, Some(wanted), Some(take), Some(skip)).rows;
      && (forall i :: 0 <= i < |rows| ==> rows[i].bounty.status == wanted && rows[i].bounty in st.bounties.Values)
      && (forall i, j :: 0 <= i < j < |rows| ==> rows[i].bounty.createdAt >= rows[j].bounty.createdAt)
      && (take >= 0 ==> |rows| <= take)
      && (skip == 0 && take >= |order| ==>
            forall k :: k in st.bounties && st.bounties[k].status == wanted ==>
              exists i :: 0 <= i < |rows| && rows[i].bounty == st.bounties[k])
  {
    var page := Select(st.bounties, order, StatusIs(wanted), NewestFirst, skip, take);
    NewestFirstTotal();
    SelectOutcome(st.bounties, order, StatusIs(wanted), NewestFirst, skip, take);
    assert BountyQuery(st, order, Some(wanted), Some(take), Some(skip)).rows == WithSolvers(st, page);
    ListedPage(st, page, WithSolvers(st, page), wanted);
    if skip == 0 && take >= |order| {
      assert forall i :: 0 <= i < |order| && st.bounties[order[i]].status == wanted ==> st.bounties[order[i]] in page by {
        forall i | 0 <= i < |order| && st.bounties[order[i]].status == wanted
          ensures st.bounties[order[i]] in page
        {
          assert StatusIs(wanted)(st.bounties[order[i]]);
        }
      }
      ListedCovers(st, order, wanted, page, WithSolvers(st, page));
    }
  }

  /** A query with a non-negative limit and offset lists the matching
      bounties, newest first, from position `offset` on: the rows are the
      bounties of that window, each with its solver, up to `limit` of
      them. */
  lemma BountyPageWindow(st: DbState, order: seq<Id>, wanted: BountyStatus, take: nat, skip: nat)
    requires forall i :: 0 <= i < |order| ==> order[i] in st.bounties
    ensures var ranked := SortBy(Filter(Rows(st.bounties, order), StatusIs(wanted)), NewestFirst);
      var page := Page(ranked, skip, take);
      && BountyQuery(st, order, Some(wanted), Some(take), Some(skip)) == Query(200, WithSolvers(st, page))
      && IsWindow(page, ranked, skip, take)
  {
    var ranked := SortBy(Filter(Rows(st.bounties, order), StatusIs(wanted)), NewestFirst);
    assert Select(st.bounties, order, StatusIs(wanted), NewestFirst, skip, take) == Page(ranked, skip, take);
    PageWindow(ranked, skip, take);
  }

  /** The rows carry the page's bounties, so they keep its filter and its
      order. */
  lemma ListedPage(st: DbState, page: seq<Bounty>, rows: seq<Listed>, wanted: BountyStatus)
    requires |rows| == |page| && forall i :: 0 <= i < |rows| ==> rows[i].bounty == page[i]
    requires forall x :: x in page ==> x in st.bounties.Values && StatusIs(wanted)(x)
    requires Sorted(page, NewestFirst)
    ensures forall i :: 0 <= i < |rows| ==> rows[i].bounty.status == wanted && rows[i].bounty in st.bounties.Values
    ensures forall i, j :: 0 <= i < j < |rows| ==> rows[i].bounty.createdAt >= rows[j].bounty.createdAt
  {
    forall i | 0 <= i < |rows|
      ensures rows[i].bounty.status == wanted && rows[i].bounty in st.bounties.Values
    {
      assert page[i] in page;
    }
    forall i, j | 0 <= i < j < |rows| ensures rows[i].bounty.createdAt >= rows[j].bounty.createdAt {
      assert NewestFirst(page[i], page[j]);
    }
  }

  /** Rows carrying a page that holds every matching bounty of the table
      show each of them. */
  lemma ListedCovers(st: DbState, order: seq<Id>, wanted: BountyStatus, page: seq<Bounty>, rows: seq<Listed>)
    requires forall k :: k in st.bounties ==> k in order
    requires forall i :: 0 <= i < |order| ==> order[i] in st.bounties
    requires forall i :: 0 <= i < |order| && st.bounties[order[i]].status == wanted ==> st.bounties[order[i]] in page
    requires |rows| == |page| && forall i :: 0 <= i < |rows| ==> rows[i].bounty == page[i]
    ensures forall k :: k in st.bounties && st.bounties[k].status == wanted ==>
              exists i :: 0 <= i < |rows| && rows[i].bounty == st.bounties[k]
  {
    forall k | k in st.bounties && st.bounties[k].status == wanted
      ensures exists i :: 0 <= i < |rows| && rows[i].bounty == st.bounties[k]
    {
      var j :| 0 <= j < |order| && order[j] == k;
      assert st.bounties[order[j]] in page;
      var i :| 0 <= i < |page| && page[i] == st.bounties[k];
      assert rows[i].bounty == st.bounties[k];
    }
  }

  /** Without parameters the list is the first 20 ACTIVE bounties, newest
      first. */
  lemma ListBountiesDefaults(st: DbState, order: seq<Id>)
    requires Enumerates(order, st.bounties.Keys)
    ensures var r := ListBounties(st, order, None, None, None);
      && r.status == 200
      && |r.rows| <= 20
      && forall i :: 0 <= i < |r.rows| ==> r.rows[i].bounty.status == Active
  {
    assert DecimalString(20) == "20" by {
      assert DecimalString(2) == "2";
    }
    assert DecimalString(0) == "0";
    ParseIntNumeral(20);
    ParseIntNumeral(0);
    assert ParseStatus("ACTIVE") == Some(Active);
    assert ListBounties(st, order, None, None, None) == BountyQuery(st, order, Some(Active), Some(20), Some(0));
    BountyQueryOutcome(st, order, Some(Active), Some(20), Some(0));
  }

  // ---------------------------------------------------------------------
  // GET /api/bounties/my

  /** A bounty as the poster's list shows it: with its submissions, newest
      first, and the solver lookup. */
  datatype MyBounty = MyBounty(bounty: Bounty, submissions: seq<Submission>, solver: Option<Option<User>>)

  /** The column the poster's list is ordered by: the amount for
      `sort == "amount"`, the creation time for anything else. */
  function SortKey(sort: string, b: Bounty): int {
    if sort == "amount" then b.amount else b.createdAt
  }

  function PosterOrder(sort: string, ascending: bool): (Bounty, Bounty) -> bool {
    (a: Bounty, b: Bounty) =>
      if ascending then SortKey(sort, a) <= SortKey(sort, b) else SortKey(sort, a) >= SortKey(sort, b)
  }

  lemma PosterOrderTotal(sort: string, ascending: bool)
    ensures TotalPreorder(PosterOrder(sort, ascending))
  {
  }

  /** The `where` of the poster's list: the caller's bounties, and only
      those with the given status when there is one. */
  function PostedBy(caller: Id, filter: Option<BountyStatus>): Bounty -> bool {
    (b: Bounty) => b.posterId == caller && (filter.None? || b.status == filter.value)
  }

  function ForBounty(bountyId: Id): Submission -> bool {
    (s: Submission) => s.bountyId == bountyId
  }

  /** The submissions of one bounty, newest first. */
  function SubmissionsOf(st: DbState, subOrder: seq<Id>, bountyId: Id): seq<Submission>
    requires forall i :: 0 <= i < |subOrder| ==> subOrder[i] in st.submissions
  {
    SortBy(Filter(Rows(st.submissions, subOrder), ForBounty(bountyId)), NewestSubmissionFirst)
  }

  /** Each bounty of a page with its submissions and its solver lookup. */
  function Decorated(st: DbState, subOrder: seq<Id>, page: seq<Bounty>): (rows: seq<MyBounty>)
    requires forall i :: 0 <= i < |subOrder| ==> subOrder[i] in st.submissions
    ensures |rows| == |page|
    ensures forall i :: 0 <= i < |rows| ==>
      rows[i] == MyBounty(page[i], SubmissionsOf(st, subOrder, page[i].id), WithSolver(st, page[i]).solver)
  {
    seq(|page|, i requires 0 <= i < |page| =>
      MyBounty(page[i], SubmissionsOf(st, subOrder, page[i].id), WithSolver(st, page[i]).solver))
  }

  /** The caller's bounties: `status` (default "all", which filters
      nothing), `limit` (default 50), `sort` and `direction` (default
      "desc"). An unknown status or direction, or a limit that is not a
      number, makes the database call fail (500). */
  function MyBounties(st: DbState, caller: Id, order: seq<Id>, subOrder: seq<Id>,
                      status: Option<string>, limit: Option<string>,
                      sort: Option<string>, direction: Option<string>): Query<MyBounty>
    requires forall i :: 0 <= i < |order| ==> order[i] in st.bounties
    requires forall i :: 0 <= i < |subOrder| ==> subOrder[i] in st.submissions
  {
    var statusText := ParamOr(status, "all");
    var filter := if statusText == "all" then None else ParseStatus(statusText);
    var take := ParseIntString(ParamOr(limit, "50"));
    var dir := ParamOr(direction, "desc");
    if (statusText != "all" && filter.None?) || take.None? || (dir != "asc" && dir != "desc") then
      Query(500, [])
    else
      var page := MyPage(st, caller, order, status, limit, sort, direction);
      Query(200, Decorated(st, subOrder, page))
  }

  /** Each bounty's submission list holds exactly its submissions, newest
      first. */
  lemma SubmissionsOfOutcome(st: DbState, subOrder: seq<Id>, bountyId: Id)
    requires Enumerates(subOrder, st.submissions.Keys)
    ensures var subs := SubmissionsOf(st, subOrder, bountyId);
      && (forall i :: 0 <= i < |subs| ==> subs[i].bountyId == bountyId && subs[i] in st.submissions.Values)
      && (forall i, j :: 0 <= i < j < |subs| ==> subs[i].createdAt >= subs[j].createdAt)
      && (forall k :: k in st.submissions && st.submissions[k].bountyId == bountyId ==> st.submissions[k] in subs)
  {
    var subs := SubmissionsOf(st, subOrder, bountyId);
    NewestFirstTotal();
    SelectAll(st.submissions, subOrder, ForBounty(bountyId), NewestSubmissionFirst);
    SelectOutcome(st.submissions, subOrder, ForBounty(bountyId), NewestSubmissionFirst, 0, |subOrder|);
    forall i | 0 <= i < |subs| ensures subs[i].bountyId == bountyId && subs[i] in st.submissions.Values {
      assert subs[i] in subs;
    }
    forall k | k in st.submissions && st.submissions[k].bountyId == bountyId ensures st.submissions[k] in subs {
      var j :| 0 <= j < |subOrder| && subOrder[j] == k;
    }
  }

  /** The page of the poster's list, before each bounty is decorated. */
  function MyPage(st: DbState, caller: Id, order: seq<Id>, status: Option<string>, limit: Option<string>,
                  sort: Option<string>, direction: Option<string>): seq<Bounty>
    requires forall i :: 0 <= i < |order| ==> order[i] in st.bounties
  {
    var statusText := ParamOr(status, "all");
    var filter := if statusText == "all" then None else ParseStatus(statusText);
    var take := ParseIntString(ParamOr(limit, "50"));
    Select(st.bounties, order, PostedBy(caller, filter),
           PosterOrder(ParamOr(sort, "created"), ParamOr(direction, "desc") == "asc"),
           0, if take.Some? then take.value else 0)
  }

  /** The poster's list holds only the caller's bounties, and only those
      with the requested status unless it is "all". */
  lemma MyPageMembers(st: DbState, caller: Id, order: seq<Id>, status: Option<string>, limit: Option<string>,
                      sort: Option<string>, direction: Option<string>)
    requires Enumerates(order, st.bounties.Keys)
    ensures var page := MyPage(st, caller, order, status, limit, sort, direction);
      var statusText := ParamOr(status, "all");
      forall i :: 0 <= i < |page| ==>
        && page[i] in st.bounties.Values
        && page[i].posterId == caller
        && (statusText != "all" && ParseStatus(statusText).Some? ==> page[i].status == ParseStatus(statusText).value)
  {
    var page := MyPage(st, caller, order, status, limit, sort, direction);
    var statusText := ParamOr(status, "all");
    var filter := if statusText == "all" then None else ParseStatus(statusText);
    var take := ParseIntString(ParamOr(limit, "50"));
    var le := PosterOrder(ParamOr(sort, "created"), ParamOr(direction, "desc") == "asc");
    PosterOrderTotal(ParamOr(sort, "created"), ParamOr(direction, "desc") == "asc");
    SelectOutcome(st.bounties, order, PostedBy(caller, filter), le, 0, if take.Some? then take.value else 0);
    forall i | 0 <= i < |page|
      ensures page[i] in st.bounties.Values && PostedBy(caller, filter)(page[i])
    {
      assert page[i] in page;
    }
  }

  /** The poster's list is ordered by the chosen column in the chosen
      direction, and holds at most `limit` bounties. */
  lemma MyPageOrdered(st: DbState, caller: Id, order: seq<Id>, status: Option<string>, limit: Option<string>,
                      sort: Option<string>, direction: Option<string>)
    requires Enumerates(order, st.bounties.Keys)
    ensures var page := MyPage(st, caller, order, status, limit, sort, direction);
      var take := ParseIntString(ParamOr(limit, "50"));
      var key := ParamOr(sort, "created");
      var ascending := ParamOr(direction, "desc") == "asc";
      && (forall i, j :: 0 <= i < j < |page| ==>
            if ascending then SortKey(key, page[i]) <= SortKey(key, page[j])
            else SortKey(key, page[i]) >= SortKey(key, page[j]))
      && (take.Some? && take.value >= 0 ==> |page| <= take.value)
  {
    var statusText := ParamOr(status, "all");
    var filter := if statusText == "all" then None else ParseStatus(statusText);
    var take := ParseIntString(ParamOr(limit, "50"));
    var le := PosterOrder(ParamOr(sort, "created"), ParamOr(direction, "desc") == "asc");
    PosterOrderTotal(ParamOr(sort, "created"), ParamOr(direction, "desc") == "asc");
    SelectOutcome(st.bounties, order, PostedBy(caller, filter), le, 0, if take.Some? then take.value else 0);
  }

  /** A successful poster's list is that page, each bounty with its own
      submissions and its solver lookup. */
  lemma MyBountiesOutcome(st: DbState, caller: Id, order: seq<Id>, subOrder: seq<Id>,
                          status: Option<string>, limit: Option<string>,
                          sort: Option<string>, direction: Option<string>)
    requires Enumerates(order, st.bounties.Keys) && Enumerates(subOrder, st.submissions.Keys)
    ensures var r := MyBounties(st, caller, order, subOrder, status, limit, sort, direction);
      var page := MyPage(st, caller, order, status, limit, sort, direction);
      && (r.status == 200 || (r.status == 500 && r.rows == []))
      && (r.status == 500 <==>
            || (ParamOr(status, "all") != "all" && ParseStatus(ParamOr(status, "all")).None?)
            || ParseIntString(ParamOr(limit, "50")).None?
            || ParamOr(direction, "desc") !in {"asc", "desc"})
      && (r.status == 200 ==>
            && |r.rows| == |page|
            && forall i :: 0 <= i < |r.rows| ==>
                 && r.rows[i].bounty == page[i]
                 && r.rows[i].submissions == SubmissionsOf(st, subOrder, page[i].id)
                 && r.rows[i].solver == WithSolver(st, page[i]).solver)
  {
  }

  // ---------------------------------------------------------------------
  // GET /api/bounties/solved

  /** An approved submission shown as the bounty it solved. */
  datatype SolvedItem = SolvedItem(
    bounty: Bounty,
    submissionId: Id,
    prUrl: string,
    prNumber: int,
    submissionStatus: SubmissionStatus,
    submissionCreatedAt: Time)

  function ApprovedBy(caller: Id): Submission -> bool {
    (s: Submission) => s.userId == caller && s.status == Approved
  }

  /** The caller's APPROVED submissions, newest first. */
  function ApprovedOf(st: DbState, caller: Id, subOrder: seq<Id>): seq<Submission>
    requires forall i :: 0 <= i < |subOrder| ==> subOrder[i] in st.submissions
  {
    SortBy(Filter(Rows(st.submissions, subOrder), ApprovedBy(caller)), NewestSubmissionFirst)
  }

  /** Each of those submissions is a stored one by the caller, approved;
      they are newest first; every such submission is among them. */
  lemma ApprovedOfOutcome(st: DbState, caller: Id, subOrder: seq<Id>)
    requires forall i :: 0 <= i < |subOrder| ==> subOrder[i] in st.submissions
    ensures var subs := ApprovedOf(st, caller, subOrder);
      && (forall s :: s in subs ==> s in st.submissions.Values && s.userId == caller && s.status == Approved)
      && (forall i, j :: 0 <= i < j < |subs| ==> subs[i].createdAt >= subs[j].createdAt)
      && (forall i :: 0 <= i < |subOrder| && ApprovedBy(caller)(st.submissions[subOrder[i]]) ==>
            st.submissions[subOrder[i]] in subs)
  {
    NewestFirstTotal();
    SelectAll(st.submissions, subOrder, ApprovedBy(caller), NewestSubmissionFirst);
    SelectOutcome(st.submissions, subOrder, ApprovedBy(caller), NewestSubmissionFirst, 0, |subOrder|);
  }

  function SolvedBounties(st: DbState, caller: Id, subOrder: seq<Id>): seq<SolvedItem>
    requires Valid(st)
    requires forall i :: 0 <= i < |subOrder| ==> subOrder[i] in st.submissions
  {
    var subs := ApprovedOf(st, caller, subOrder);
    ApprovedOfOutcome(st, caller, subOrder);
    SolvedItems(st, subs)
  }

  /** A submission shown with the bounty it names. */
  function SolvedItemOf(st: DbState, s: Submission): (item: SolvedItem)
    requires s.bountyId in st.bounties
    ensures item.bounty == st.bounties[s.bountyId] && item.submissionId == s.id
    ensures item.submissionStatus == s.status && item.submissionCreatedAt == s.createdAt
  {
    SolvedItem(st.bounties[s.bountyId], s.id, s.prUrl, s.prNumber, s.status, s.createdAt)
  }

  /** Each submission of a list with the bounty it names. */
  function SolvedItems(st: DbState, subs: seq<Submission>): (items: seq<SolvedItem>)
    requires forall s :: s in subs ==> s.bountyId in st.bounties
    ensures |items| == |subs|
    ensures forall i :: 0 <= i < |items| ==> items[i] == SolvedItemOf(st, subs[i])
  {
    seq(|subs|, i requires 0 <= i < |subs| => assert subs[i] in subs; SolvedItemOf(st, subs[i]))
  }

  /** Each item carries an approved submission of the caller, its id, and
      the stored bounty that submission solved, which the invariant makes
      a SOLVED one; the items are newest first. */
  lemma SolvedBountiesItems(st: DbState, caller: Id, subOrder: seq<Id>)
    requires Valid(st) && Enumerates(subOrder, st.submissions.Keys)
    ensures var items := SolvedBounties(st, caller, subOrder);
      && (forall i :: 0 <= i < |items| ==>
            var k := items[i].submissionId;
            && items[i].submissionStatus == Approved
            && k in st.submissions
            && st.submissions[k].userId == caller && st.submissions[k].status == Approved
            && items[i].bounty == st.bounties[st.submissions[k].bountyId]
            && items[i].bounty.id == st.submissions[k].bountyId
            && items[i].bounty.status == Solved)
      && (forall i, j :: 0 <= i < j < |items| ==> items[i].submissionCreatedAt >= items[j].submissionCreatedAt)
  {
    var items := SolvedBounties(st, caller, subOrder);
    var subs := ApprovedOf(st, caller, subOrder);
    ApprovedOfOutcome(st, caller, subOrder);
    forall i | 0 <= i < |items|
      ensures items[i].submissionId in st.submissions && st.submissions[items[i].submissionId] == subs[i]
    {
      assert subs[i] in subs;
    }
  }

  /** No approved submission is listed twice. */
  lemma SolvedBountiesDistinct(st: DbState, caller: Id, subOrder: seq<Id>)
    requires Valid(st) && Enumerates(subOrder, st.submissions.Keys)
    ensures var items := SolvedBounties(st, caller, subOrder);
      forall i, j :: 0 <= i < j < |items| ==> items[i].submissionId != items[j].submissionId
  {
    var items := SolvedBounties(st, caller, subOrder);
    var subs := ApprovedOf(st, caller, subOrder);
    var all := Rows(st.submissions, subOrder);
    assert Distinct(all) by {
      forall i, j | 0 <= i < j < |all| ensures all[i] != all[j] {
        assert all[i].id == subOrder[i] && all[j].id == subOrder[j];
      }
    }
    SelectAll(st.submissions, subOrder, ApprovedBy(caller), NewestSubmissionFirst);
    SelectDistinct(st.submissions, subOrder, ApprovedBy(caller), NewestSubmissionFirst, 0, |subOrder|);
    ApprovedOfOutcome(st, caller, subOrder);
    forall i, j | 0 <= i < j < |items| ensures items[i].submissionId != items[j].submissionId {
      assert subs[i] in subs && subs[j] in subs;
      assert items[i].submissionId == subs[i].id && items[j].submissionId == subs[j].id;
      assert subs[i] != subs[j];
    }
  }

  /** Every approved submission of the caller is listed. */
  lemma SolvedBountiesComplete(st: DbState, caller: Id, subOrder: seq<Id>)
    requires Valid(st) && Enumerates(subOrder, st.submissions.Keys)
    ensures var items := SolvedBounties(st, caller, subOrder);
      forall k :: k in st.submissions && st.submissions[k].userId == caller && st.submissions[k].status == Approved ==>
        exists i :: 0 <= i < |items| && items[i].submissionId == k
  {
    var subs := ApprovedOf(st, caller, subOrder);
    ApprovedOfOutcome(st, caller, subOrder);
    assert SolvedBounties(st, caller, subOrder) == SolvedItems(st, subs);
    assert forall i :: (0 <= i < |subOrder| && st.submissions[subOrder[i]].userId == caller
                        && st.submissions[subOrder[i]].status == Approved) ==> st.submissions[subOrder[i]] in subs by {
      forall i | 0 <= i < |subOrder| && st.submissions[subOrder[i]].userId == caller
                 && st.submissions[subOrder[i]].status == Approved
        ensures st.submissions[subOrder[i]] in subs
      {
        assert ApprovedBy(caller)(st.submissions[subOrder[i]]);
      }
    }
    SolvedCovers(st, caller, subOrder, subs, SolvedItems(st, subs));
  }

  /** Items carrying a list that holds every approved submission of the
      caller show each of them. */
  lemma SolvedCovers(st: DbState, caller: Id, subOrder: seq<Id>, subs: seq<Submission>, items: seq<SolvedItem>)
    requires forall k :: k in st.submissions ==> k in subOrder && st.submissions[k].id == k
    requires forall i :: 0 <= i < |subOrder| ==> subOrder[i] in st.submissions
    requires forall i :: (0 <= i < |subOrder| && st.submissions[subOrder[i]].userId == caller
                          && st.submissions[subOrder[i]].status == Approved) ==> st.submissions[subOrder[i]] in subs
    requires |items| == |subs| && forall i :: 0 <= i < |items| ==> items[i].submissionId == subs[i].id
    ensures forall k :: k in st.submissions && st.submissions[k].userId == caller && st.submissions[k].status == Approved ==>
              exists i :: 0 <= i < |items| && items[i].submissionId == k
  {
    forall k | k in st.submissions && st.submissions[k].userId == caller && st.submissions[k].status == Approved
      ensures exists i :: 0 <= i < |items| && items[i].submissionId == k
    {
      var j :| 0 <= j < |subOrder| && subOrder[j] == k;
      assert st.submissions[subOrder[j]] in subs;
      var i :| 0 <= i < |subs| && subs[i] == st.submissions[k];
      assert items[i].submissionId == k;
    }
  }

  // ---------------------------------------------------------------------
  // The authenticated list routes

  /** A list route's response: status, rows, and the database after the
      authentication's user sync. */
  datatype Answer<T> = Answer(status: int, rows: seq<T>, st: DbState)

  function MyBountiesRouteSpec(st: DbState, oracle: Oracle, header: Option<string>,
                               order: seq<Id>, subOrder: seq<Id>,
                               status: Option<string>, limit: Option<string>,
                               sort: Option<string>, direction: Option<string>): Answer<MyBounty>
    requires Valid(st) && Enumerates(order, st.bounties.Keys) && Enumerates(subOrder, st.submissions.Keys)
  {
    AuthSound(st, oracle, header);
    var a := AuthSpec(st, oracle, header);
    match a.result
    case Denied(code) => Answer(code, [], a.st)
    case Granted(caller) =>
      var q := MyBounties(a.st, caller, order, subOrder, status, limit, sort, direction);
      Answer(q.status, q.rows, a.st)
  }

  method MyBountiesRoute(db: Db, oracle: Oracle, header: Option<string>,
                         order: seq<Id>, subOrder: seq<Id>,
                         status: Option<string>, limit: Option<string>,
                         sort: Option<string>, direction: Option<string>)
    returns (code: int, rows: seq<MyBounty>)
    requires Valid(db.State()) && Enumerates(order, db.bounties.Keys) && Enumerates(subOrder, db.submissions.Keys)
    modifies db
    ensures Answer(code, rows, db.State())
         == MyBountiesRouteSpec(old(db.State()), oracle, header, order, subOrder, status, limit, sort, direction)
  {
    ghost var st0 := db.State();
    var auth := Authenticate(db, oracle, header);
    AuthSound(st0, oracle, header);
    if auth.Denied? {
      return auth.status, [];
    }
    var q := MyBounties(db.State(), auth.user, order, subOrder, status, limit, sort, direction);
    return q.status, q.rows;
  }

  function SolvedRouteSpec(st: DbState, oracle: Oracle, header: Option<string>, subOrder: seq<Id>): Answer<SolvedItem>
    requires Valid(st) && Enumerates(subOrder, st.submissions.Keys)
  {
    AuthSound(st, oracle, header);
    var a := AuthSpec(st, oracle, header);
    match a.result
    case Denied(code) => Answer(code, [], a.st)
    case Granted(caller) => Answer(200, SolvedBounties(a.st, caller, subOrder), a.st)
  }

  method SolvedRoute(db: Db, oracle: Oracle, header: Option<string>, subOrder: seq<Id>)
    returns (code: int, rows: seq<SolvedItem>)
    requires Valid(db.State()) && Enumerates(subOrder, db.submissions.Keys)
    modifies db
    ensures Answer(code, rows, db.State()) == SolvedRouteSpec(old(db.State()), oracle, header, subOrder)
  {
    ghost var st0 := db.State();
    var auth := Authenticate(db, oracle, header);
    AuthSound(st0, oracle, header);
    if auth.Denied? {
      return auth.status, [];
    }
    return 200, SolvedBounties(db.State(), auth.user, subOrder);
  }

  /** The protected list routes answer 401 and write nothing without a
      Bearer header, and otherwise change only the user tables. */
  lemma ListRoutesAuthenticate(st: DbState, oracle: Oracle, header: Option<string>,
                               order: seq<Id>, subOrder: seq<Id>,
                               status: Option<string>, limit: Option<string>,
                               sort: Option<string>, direction: Option<string>)
    requires Valid(st) && Enumerates(order, st.bounties.Keys) && Enumerates(subOrder, st.submissions.Keys)
    ensures var m := MyBountiesRouteSpec(st, oracle, header, order, subOrder, status, limit, sort, direction);
      var s := SolvedRouteSpec(st, oracle, header, subOrder);
      && (BearerToken(header).None? ==> m == Answer(401, [], st) && s == Answer(401, [], st))
      && Valid(m.st) && m.st.bounties == st.bounties && m.st.submissions == st.submissions
      && s.st == m.st
  {
    AuthSound(st, oracle, header);
  }
}
