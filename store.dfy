/**
 * The database tables the core reads and writes, as records in maps, and
 * the class `Db` that stands for the shared database client. Row ids are
 * handed out from a counter in place of the database's generated ids;
 * timestamps are abstract numbers supplied by the caller as `now`.
 */
module Store {
  import opened Wrappers
  import opened JsValues

  type Id = nat
  type Time = int

  datatype BountyStatus = Active | Solved | Expired | Cancelled
  datatype SubmissionStatus = Pending | Approved | Rejected

  datatype Bounty = Bounty(
    id: Id,
    githubIssueId: int,
    repoOwner: string,
    repoName: string,
    title: string,
    description: string,
    amount: int,
    status: BountyStatus,
    isSolved: bool,
    solvedAt: Option<Time>,
    solvedBy: Option<Id>,
    posterId: Id,
    issueUrl: string,
    labels: seq<string>,
    createdAt: Time)

  datatype Submission = Submission(
    id: Id,
    bountyId: Id,
    userId: Id,
    prUrl: string,
    prNumber: int,
    status: SubmissionStatus,
    isVerified: bool,
    verifiedAt: Option<Time>,
    createdAt: Time)

  datatype Installation = Installation(owner: string, repo: string, installed: bool, installedBy: Id)

  datatype User = User(
    id: Id,
    privyId: string,
    name: Option<string>,
    email: Option<string>,
    username: Option<string>,
    login: Option<string>,
    image: Option<string>,
    walletAddress: Option<string>,
    unclaimedTokens: int)

  datatype Account = Account(userId: Id, kind: string, provider: string, providerAccountId: string, accessToken: string)

  datatype Project = Project(
    id: Id,
    name: string,
    description: string,
    githubUrl: string,
    owner: string,
    repo: string,
    isApproved: bool,
    voteCount: int,
    createdAt: Time)

  /** The unique key a webhook uses to find a bounty: (issue number, owner,
      repository name). */
  datatype NaturalKey = NaturalKey(issue: int, owner: string, repo: string)

  function KeyOf(b: Bounty): NaturalKey {
    NaturalKey(b.githubIssueId, b.repoOwner, b.repoName)
  }

  /** The whole database at one instant. */
  datatype DbState = DbState(
    bounties: map<Id, Bounty>,
    submissions: map<Id, Submission>,
    installations: map<(string, string), Installation>,
    users: map<Id, User>,
    accounts: map<(string, string), Account>,
    projects: map<Id, Project>,
    nextId: Id)

  /** The status flags of a bounty agree: `isSolved` and `solvedAt` are set
      exactly when it is SOLVED, and a solver is only ever recorded on a
      SOLVED bounty (the issue-closed path leaves it unset). */
  predicate BountyConsistent(b: Bounty) {
    && b.isSolved == (b.status == Solved)
    && b.solvedAt.Some? == (b.status == Solved)
    && (b.solvedBy.Some? ==> b.status == Solved)
  }

  predicate ValidBounties(st: DbState) {
    && (forall k :: k in st.bounties ==> st.bounties[k].id == k && k < st.nextId)
    && (forall k :: k in st.bounties ==> BountyConsistent(st.bounties[k]))
    && (forall k1, k2 :: k1 in st.bounties && k2 in st.bounties && KeyOf(st.bounties[k1]) == KeyOf(st.bounties[k2]) ==> k1 == k2)
  }

  /** A submission's flags agree with its status, and an approved
      submission's bounty is SOLVED with a solver recorded: approval and
      solving happen together. */
  predicate SubmissionConsistent(st: DbState, s: Submission) {
    && s.bountyId in st.bounties
    && s.isVerified == (s.status == Approved)
    && s.verifiedAt.Some? == (s.status == Approved)
    && (s.status == Approved ==>
          st.bounties[s.bountyId].status == Solved && st.bounties[s.bountyId].solvedBy.Some?)
  }

  predicate ValidSubmissions(st: DbState) {
    && (forall k :: k in st.submissions ==> st.submissions[k].id == k && k < st.nextId)
    && (forall k :: k in st.submissions ==> SubmissionConsistent(st, st.submissions[k]))
    && (forall k1, k2 :: k1 in st.submissions && k2 in st.submissions ==>
          (st.submissions[k1].bountyId, st.submissions[k1].userId) == (st.submissions[k2].bountyId, st.submissions[k2].userId) ==> k1 == k2)
  }

  predicate ValidOthers(st: DbState) {
    && (forall key :: key in st.installations ==> (st.installations[key].owner, st.installations[key].repo) == key)
    && (forall k :: k in st.users ==> st.users[k].id == k && k < st.nextId)
    && (forall k1, k2 :: k1 in st.users && k2 in st.users && st.users[k1].privyId == st.users[k2].privyId ==> k1 == k2)
    && (forall key :: key in st.accounts ==> (st.accounts[key].provider, st.accounts[key].providerAccountId) == key)
    && (forall k :: k in st.projects ==> st.projects[k].id == k && k < st.nextId)
    && (forall k1, k2 :: k1 in st.projects && k2 in st.projects && st.projects[k1].githubUrl == st.projects[k2].githubUrl ==> k1 == k2)
  }

  /** The database invariant every modelled operation keeps. */
  predicate Valid(st: DbState) {
    ValidBounties(st) && ValidSubmissions(st) && ValidOthers(st)
  }

  /** A change that leaves the bounties and submissions alone and does not
      move the id counter back keeps their part of the invariant. */
  lemma KeepsBountiesAndSubmissions(st: DbState, st': DbState)
    requires ValidBounties(st) && ValidSubmissions(st)
    requires st'.bounties == st.bounties && st'.submissions == st.submissions && st.nextId <= st'.nextId
    ensures ValidBounties(st') && ValidSubmissions(st')
  {
    assert forall s :: SubmissionConsistent(st, s) ==> SubmissionConsistent(st', s);
  }

  /** A change that leaves the installations, users, accounts and projects
      alone and does not move the id counter back keeps their part of the
      invariant. */
  lemma KeepsOthers(st: DbState, st': DbState)
    requires ValidOthers(st)
    requires st'.installations == st.installations && st'.users == st.users
    requires st'.accounts == st.accounts && st'.projects == st.projects && st.nextId <= st'.nextId
    ensures ValidOthers(st')
  {
  }

  /** Writing an account under its own (provider, account id) key keeps
      the invariant. */
  lemma KeepsValidAccount(st: DbState, key: (string, string), a: Account)
    requires Valid(st)
    requires (a.provider, a.providerAccountId) == key
    ensures Valid(st.(accounts := st.accounts[key := a]))
  {
    KeepsBountiesAndSubmissions(st, st.(accounts := st.accounts[key := a]));
  }

  /** Writing a user row under its own id, below the id counter, with a
      Privy id no other row holds, keeps the invariant. */
  lemma KeepsValidUser(st: DbState, u: User, nextId: Id)
    requires Valid(st)
    requires st.nextId <= nextId && u.id < nextId
    requires forall k :: k in st.users && k != u.id ==> st.users[k].privyId != u.privyId
    ensures Valid(st.(users := st.users[u.id := u], nextId := nextId))
  {
    KeepsBountiesAndSubmissions(st, st.(users := st.users[u.id := u], nextId := nextId));
    KeepsOthersUser(st, u, nextId);
  }

  lemma KeepsOthersUser(st: DbState, u: User, nextId: Id)
    requires ValidOthers(st)
    requires st.nextId <= nextId && u.id < nextId
    requires forall k :: k in st.users && k != u.id ==> st.users[k].privyId != u.privyId
    ensures ValidOthers(st.(users := st.users[u.id := u], nextId := nextId))
  {
  }

  /** Rewriting bounties in place keeps the invariant when each keeps its
      id and natural key, its flags agree with its status, and a SOLVED
      bounty with a solver stays so. */
  lemma KeepsValidBounties(st: DbState, bounties: map<Id, Bounty>)
    requires Valid(st)
    requires bounties.Keys == st.bounties.Keys
    requires forall k :: k in st.bounties ==>
      && bounties[k].id == k && KeyOf(bounties[k]) == KeyOf(st.bounties[k]) && BountyConsistent(bounties[k])
      && (st.bounties[k].status == Solved && st.bounties[k].solvedBy.Some? ==>
            bounties[k].status == Solved && bounties[k].solvedBy.Some?)
    ensures Valid(st.(bounties := bounties))
  {
    var st' := st.(bounties := bounties);
    forall k | k in st'.submissions ensures SubmissionConsistent(st', st'.submissions[k]) {
      assert SubmissionConsistent(st, st.submissions[k]);
    }
    KeepsOthers(st, st');
  }

  /** Writing an installation record under its own (owner, repository)
      key keeps the invariant. */
  lemma KeepsValidInstallation(st: DbState, key: (string, string), i: Installation)
    requires Valid(st)
    requires (i.owner, i.repo) == key
    ensures Valid(st.(installations := st.installations[key := i]))
  {
    KeepsBountiesAndSubmissions(st, st.(installations := st.installations[key := i]));
  }

  /** Adding a project under the next id, with a URL no project has, keeps
      the invariant. */
  lemma KeepsValidProject(st: DbState, p: Project)
    requires Valid(st)
    requires p.id == st.nextId
    requires forall k :: k in st.projects ==> st.projects[k].githubUrl != p.githubUrl
    ensures Valid(st.(projects := st.projects[p.id := p], nextId := st.nextId + 1))
  {
    KeepsBountiesAndSubmissions(st, st.(projects := st.projects[p.id := p], nextId := st.nextId + 1));
    KeepsOthersProject(st, p);
  }

  lemma KeepsOthersProject(st: DbState, p: Project)
    requires ValidOthers(st)
    requires p.id == st.nextId
    requires forall k :: k in st.projects ==> st.projects[k].githubUrl != p.githubUrl
    ensures ValidOthers(st.(projects := st.projects[p.id := p], nextId := st.nextId + 1))
  {
  }

  /** Adding a bounty under the next id, with consistent flags and a
      natural key no bounty has, keeps the invariant. */
  lemma KeepsValidNewBounty(st: DbState, b: Bounty)
    requires Valid(st)
    requires b.id == st.nextId && BountyConsistent(b)
    requires forall k :: k in st.bounties ==> KeyOf(st.bounties[k]) != KeyOf(b)
    ensures Valid(st.(bounties := st.bounties[b.id := b], nextId := st.nextId + 1))
  {
    var st' := st.(bounties := st.bounties[b.id := b], nextId := st.nextId + 1);
    forall k | k in st'.submissions ensures SubmissionConsistent(st', st'.submissions[k]) {
      assert SubmissionConsistent(st, st.submissions[k]);
    }
    KeepsOthers(st, st');
  }

  /** Adding a submission under the next id, consistent with the bounties,
      for a (bounty, user) pair no submission has, keeps the invariant. */
  lemma KeepsValidNewSubmission(st: DbState, s: Submission)
    requires Valid(st)
    requires s.id == st.nextId && SubmissionConsistent(st, s)
    requires forall k :: k in st.submissions ==>
      (st.submissions[k].bountyId, st.submissions[k].userId) != (s.bountyId, s.userId)
    ensures Valid(st.(submissions := st.submissions[s.id := s], nextId := st.nextId + 1))
  {
    var st' := st.(submissions := st.submissions[s.id := s], nextId := st.nextId + 1);
    forall k | k in st'.submissions ensures SubmissionConsistent(st', st'.submissions[k]) {
      if k != s.id {
        assert SubmissionConsistent(st, st.submissions[k]);
      }
    }
    KeepsOthers(st, st');
  }

  function EmptyState(): (st: DbState)
    ensures Valid(st)
    ensures st.bounties == map[] && st.submissions == map[] && st.installations == map[]
  {
    DbState(map[], map[], map[], map[], map[], map[], 0)
  }

  /** `order` lists every key of a table exactly once: the order in which
      the database happens to return its rows. */
  predicate Enumerates<K>(order: seq<K>, keys: set<K>) {
    && (forall i :: 0 <= i < |order| ==> order[i] in keys)
    && (forall i, j :: 0 <= i < j < |order| ==> order[i] != order[j])
    && (forall k :: k in keys ==> k in order)
  }

  /** Some bounty carries the natural key. */
  predicate HasKey(st: DbState, key: NaturalKey) {
    exists k :: k in st.bounties && KeyOf(st.bounties[k]) == key
  }

  /** The text form of a row id, as request bodies and query strings carry
      it. */
  function IdText(k: Id): string {
    DecimalString(k)
  }

  /** Distinct rows have distinct id texts. */
  lemma IdTextInjective(a: Id, b: Id)
    requires IdText(a) == IdText(b)
    ensures a == b
  {
    DecimalStringValue(a);
    DecimalStringValue(b);
  }

  /** `findUnique({ where: { id } })` with an id given as text: the row
      whose id that text is, if there is one. */
  function FindByText<V>(m: map<Id, V>, s: string): (k: Option<Id>)
    ensures k.Some? ==> k.value in m && IdText(k.value) == s
    ensures k.None? ==> forall id :: id in m ==> IdText(id) != s
  {
    if exists id :: id in m && IdText(id) == s then
      assert forall a, b :: IdText(a) == s && IdText(b) == s ==> a == b by {
        forall a, b | IdText(a) == s && IdText(b) == s ensures a == b {
          IdTextInjective(a, b);
        }
      }
      var id :| id in m && IdText(id) == s;
      Some(id)
    else None
  }

  /** The database client every route handler shares. */
  class Db {
    var bounties: map<Id, Bounty>
    var submissions: map<Id, Submission>
    var installations: map<(string, string), Installation>
    var users: map<Id, User>
    var accounts: map<(string, string), Account>
    var projects: map<Id, Project>
    var nextId: Id

    function State(): DbState
      reads this
    {
      DbState(bounties, submissions, installations, users, accounts, projects, nextId)
    }

    constructor ()
      ensures State() == EmptyState()
    {
      bounties, submissions, installations := map[], map[], map[];
      users, accounts, projects := map[], map[], map[];
      nextId := 0;
    }

  }
}
