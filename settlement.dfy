/**
 * The PR-merge settlement of the webhook route: the PENDING submissions
 * carrying the merged PR's number are loaded once, each together with its
 * bounty as it was at that moment (the snapshot), and every row whose
 * snapshot bounty belongs to the webhook's repository and is ACTIVE is
 * settled in one transaction that approves the submission and solves the
 * bounty.
 */
module Settlement {
  import opened Wrappers
  import opened Store

  /** One row of the `findMany` with `include: { bounty: true }`: the
      submission and its bounty as loaded before the loop. */
  datatype Row = Row(sub: Submission, bounty: Bounty)

  /** Every id in `order` names a submission whose bounty exists. */
  predicate Resolvable(st: DbState, order: seq<Id>) {
    forall i :: 0 <= i < |order| ==> order[i] in st.submissions && st.submissions[order[i]].bountyId in st.bounties
  }

  /** A snapshot row is faithful to `st`: its submission and bounty are the
      stored ones and the bounty is the submission's. */
  predicate RowOf(st: DbState, r: Row) {
    && r.sub.id in st.submissions && st.submissions[r.sub.id] == r.sub
    && r.bounty.id == r.sub.bountyId && r.sub.bountyId in st.bounties
    && st.bounties[r.sub.bountyId] == r.bounty
  }

  /** The submission `k` is PENDING and carries the PR number. */
  predicate Selected(st: DbState, k: Id, prNumber: int)
    requires k in st.submissions
  {
    st.submissions[k].status == Pending && st.submissions[k].prNumber == prNumber
  }

  /** `findMany({ where: { prNumber, status: "PENDING" }, include: { bounty: true } })`
      in the given row order. */
  function Snapshot(st: DbState, order: seq<Id>, prNumber: int): (rows: seq<Row>)
    requires Resolvable(st, order)
    ensures |rows| <= |order|
  {
    if order == [] then []
    else
      var k := order[|order| - 1];
      var s := st.submissions[k];
      var front := Snapshot(st, order[..|order| - 1], prNumber);
      if s.status == Pending && s.prNumber == prNumber then front + [Row(s, st.bounties[s.bountyId])]
      else front
  }

  /** Every snapshot row is a PENDING submission with the PR number, loaded
      together with its own bounty. */
  lemma {:induction false} SnapshotRows(st: DbState, order: seq<Id>, prNumber: int)
    requires Valid(st) && Resolvable(st, order)
    ensures forall i :: 0 <= i < |Snapshot(st, order, prNumber)| ==>
      var r := Snapshot(st, order, prNumber)[i];
      RowOf(st, r) && r.sub.status == Pending && r.sub.prNumber == prNumber && r.sub.id in order
  {
    if order != [] {
      var k := order[|order| - 1];
      var s := st.submissions[k];
      assert s.id == k;
      assert st.bounties[s.bountyId].id == s.bountyId;
      var front := order[..|order| - 1];
      SnapshotRows(st, front, prNumber);
      assert forall j :: j in front ==> j in order;
    }
  }

  /** Every PENDING submission with the PR number that `order` lists is in
      the snapshot. */
  lemma {:induction false} SnapshotComplete(st: DbState, order: seq<Id>, prNumber: int, k: Id)
    requires Resolvable(st, order)
    requires k in order && Selected(st, k, prNumber)
    ensures exists i :: 0 <= i < |Snapshot(st, order, prNumber)| && Snapshot(st, order, prNumber)[i].sub == st.submissions[k]
  {
    var last := order[|order| - 1];
    var rows := Snapshot(st, order, prNumber);
    if k == last {
      assert rows[|rows| - 1].sub == st.submissions[k];
    } else {
      var front := order[..|order| - 1];
      assert k in front by {
        var j :| 0 <= j < |order| && order[j] == k;
        assert front[j] == k;
      }
      SnapshotComplete(st, front, prNumber, k);
      var fr := Snapshot(st, front, prNumber);
      var i :| 0 <= i < |fr| && fr[i].sub == st.submissions[k];
      assert rows[i] == fr[i];
    }
  }

  /** The guard of the loop, read from the snapshot bounty: same owner,
      same repository name, and ACTIVE when loaded. */
  predicate Qualifies(r: Row, owner: string, repo: string) {
    r.bounty.repoOwner == owner && r.bounty.repoName == repo && r.bounty.status == Active
  }

  /** The submission half of the transaction. */
  function Approve(s: Submission, now: Time): (a: Submission)
    ensures a.status == Approved && a.isVerified && a.verifiedAt == Some(now)
    ensures a.id == s.id && a.bountyId == s.bountyId && a.userId == s.userId && a.prNumber == s.prNumber
    ensures a == s.(status := Approved, isVerified := true, verifiedAt := Some(now))
  {
    s.(status := Approved, isVerified := true, verifiedAt := Some(now))
  }

  /** The bounty half of the transaction. */
  function Solve(b: Bounty, now: Time, solver: Id): (r: Bounty)
    ensures r.status == Solved && r.isSolved && r.solvedAt == Some(now) && r.solvedBy == Some(solver)
    ensures r.id == b.id && KeyOf(r) == KeyOf(b)
    ensures BountyConsistent(r)
    ensures r == b.(status := Solved, isSolved := true, solvedAt := Some(now), solvedBy := Some(solver))
  {
    b.(status := Solved, isSolved := true, solvedAt := Some(now), solvedBy := Some(solver))
  }

  /** The `$transaction`: both updates are applied to the current rows,
      together. */
  function Settle(st: DbState, r: Row, now: Time): DbState
    requires r.sub.id in st.submissions && r.bounty.id in st.bounties
  {
    st.(submissions := st.submissions[r.sub.id := Approve(st.submissions[r.sub.id], now)],
        bounties := st.bounties[r.bounty.id := Solve(st.bounties[r.bounty.id], now, r.sub.userId)])
  }

  /** The loop: the rows are visited in order and each qualifying one is
      settled. The guard never looks at `st`, only at the row. */
  function SettleRows(st: DbState, rows: seq<Row>, owner: string, repo: string, now: Time): (st': DbState)
    requires forall i :: 0 <= i < |rows| ==> rows[i].sub.id in st.submissions && rows[i].bounty.id in st.bounties
    ensures st'.submissions.Keys == st.submissions.Keys && st'.bounties.Keys == st.bounties.Keys
    ensures st' == st.(submissions := st'.submissions, bounties := st'.bounties)
    decreases |rows|
  {
    if rows == [] then st
    else
      var prev := SettleRows(st, rows[..|rows| - 1], owner, repo, now);
      var r := rows[|rows| - 1];
      if Qualifies(r, owner, repo) then Settle(prev, r, now) else prev
  }

  /** `handlePullRequestEvent`: nothing happens unless the PR was closed by
      a merge. */
  function PullRequestSpec(st: DbState, action: string, merged: bool, prNumber: int,
                           owner: string, repo: string, order: seq<Id>, now: Time): DbState
    requires Valid(st) && Resolvable(st, order)
  {
    if action == "closed" && merged then
      SnapshotRows(st, order, prNumber);
      SettleRows(st, Snapshot(st, order, prNumber), owner, repo, now)
    else st
  }

  /** Some row of `rows` qualifies and carries submission `k`. */
  predicate SettlesSubmission(rows: seq<Row>, k: Id, owner: string, repo: string) {
    exists i :: 0 <= i < |rows| && rows[i].sub.id == k && Qualifies(rows[i], owner, repo)
  }

  /** `u` is the submitter of the last qualifying row for bounty `b`, or
      `None` when no qualifying row names it. */
  ghost predicate IsLastSolver(rows: seq<Row>, b: Id, owner: string, repo: string, u: Option<Id>) {
    && (u.None? <==> forall i :: 0 <= i < |rows| ==> !(rows[i].bounty.id == b && Qualifies(rows[i], owner, repo)))
    && (u.Some? ==> exists i :: && 0 <= i < |rows| && rows[i].bounty.id == b && Qualifies(rows[i], owner, repo)
                               && rows[i].sub.userId == u.value
                               && (forall j :: i < j < |rows| ==> !(rows[j].bounty.id == b && Qualifies(rows[j], owner, repo))))
  }

  /** The solver the loop leaves behind for bounty `b`. */
  function LastSolver(rows: seq<Row>, b: Id, owner: string, repo: string): (u: Option<Id>)
    ensures IsLastSolver(rows, b, owner, repo, u)
    decreases |rows|
  {
    if rows == [] then None
    else
      var r := rows[|rows| - 1];
      if r.bounty.id == b && Qualifies(r, owner, repo) then Some(r.sub.userId)
      else
        var u := LastSolver(rows[..|rows| - 1], b, owner, repo);
        LastSolverExtend(rows, b, owner, repo, u);
        u
  }

  /** A last row that does not qualify for `b` leaves the last solver as it
      was. */
  lemma LastSolverExtend(rows: seq<Row>, b: Id, owner: string, repo: string, u: Option<Id>)
    requires rows != [] && !(rows[|rows| - 1].bounty.id == b && Qualifies(rows[|rows| - 1], owner, repo))
    requires IsLastSolver(rows[..|rows| - 1], b, owner, repo, u)
    ensures IsLastSolver(rows, b, owner, repo, u)
  {
    var front := rows[..|rows| - 1];
    assert forall i :: 0 <= i < |front| ==> front[i] == rows[i];
    if u.Some? {
      var i :| && 0 <= i < |front| && front[i].bounty.id == b && Qualifies(front[i], owner, repo)
               && front[i].sub.userId == u.value
               && (forall j :: i < j < |front| ==> !(front[j].bounty.id == b && Qualifies(front[j], owner, repo)));
      assert forall j :: i < j < |rows| ==> !(rows[j].bounty.id == b && Qualifies(rows[j], owner, repo));
    }
  }

  /** What the loop does to one submission: approved exactly when a
      qualifying row carries it, untouched otherwise. */
  lemma {:induction false} SettleRowsSubmission(st: DbState, rows: seq<Row>, owner: string, repo: string, now: Time, k: Id)
    requires forall i :: 0 <= i < |rows| ==> rows[i].sub.id in st.submissions && rows[i].bounty.id in st.bounties
    requires k in st.submissions
    ensures SettleRows(st, rows, owner, repo, now).submissions[k]
      == if SettlesSubmission(rows, k, owner, repo) then Approve(st.submissions[k], now) else st.submissions[k]
    decreases |rows|
  {
    if rows != [] {
      var front := rows[..|rows| - 1];
      assert forall i :: 0 <= i < |front| ==> front[i] == rows[i];
      SettleRowsSubmission(st, front, owner, repo, now, k);
      var r := rows[|rows| - 1];
      if SettlesSubmission(rows, k, owner, repo) && !SettlesSubmission(front, k, owner, repo) {
        assert r.sub.id == k && Qualifies(r, owner, repo);
      }
    }
  }

  /** What the loop does to one bounty: solved by the last qualifying row
      that names it, untouched when none does. */
  lemma {:induction false} SettleRowsBounty(st: DbState, rows: seq<Row>, owner: string, repo: string, now: Time, b: Id)
    requires forall i :: 0 <= i < |rows| ==> rows[i].sub.id in st.submissions && rows[i].bounty.id in st.bounties
    requires b in st.bounties
    ensures SettleRows(st, rows, owner, repo, now).bounties[b]
      == match LastSolver(rows, b, owner, repo)
         case None => st.bounties[b]
         case Some(u) => Solve(st.bounties[b], now, u)
    decreases |rows|
  {
    if rows != [] {
      var front := rows[..|rows| - 1];
      assert forall i :: 0 <= i < |front| ==> front[i] == rows[i];
      SettleRowsBounty(st, front, owner, repo, now, b);
    }
  }

  /** A loop over rows none of which qualifies changes nothing. */
  lemma {:induction false} SettleRowsNoneQualify(st: DbState, rows: seq<Row>, owner: string, repo: string, now: Time)
    requires forall i :: 0 <= i < |rows| ==> rows[i].sub.id in st.submissions && rows[i].bounty.id in st.bounties
    requires forall i :: 0 <= i < |rows| ==> !Qualifies(rows[i], owner, repo)
    ensures SettleRows(st, rows, owner, repo, now) == st
    decreases |rows|
  {
    if rows != [] {
      SettleRowsNoneQualify(st, rows[..|rows| - 1], owner, repo, now);
    }
  }

  /** One settlement keeps the database invariant: the submission and its
      bounty change together. */
  lemma SettlePreservesValid(st: DbState, r: Row, now: Time)
    requires Valid(st)
    requires r.sub.id in st.submissions && r.bounty.id == st.submissions[r.sub.id].bountyId
    ensures Valid(Settle(st, r, now))
  {
    assert SubmissionConsistent(st, st.submissions[r.sub.id]);
    SettleKeepsBounties(st, r, now);
    SettleKeepsSubmissions(st, r, now);
    KeepsOthers(st, Settle(st, r, now));
  }

  lemma SettleKeepsBounties(st: DbState, r: Row, now: Time)
    requires ValidBounties(st)
    requires r.sub.id in st.submissions && r.bounty.id in st.bounties
    ensures ValidBounties(Settle(st, r, now))
  {
    var st' := Settle(st, r, now);
    forall k1, k2 | k1 in st'.bounties && k2 in st'.bounties && KeyOf(st'.bounties[k1]) == KeyOf(st'.bounties[k2])
      ensures k1 == k2
    {
      assert KeyOf(st'.bounties[k1]) == KeyOf(st.bounties[k1]);
      assert KeyOf(st'.bounties[k2]) == KeyOf(st.bounties[k2]);
    }
  }

  lemma SettleKeepsSubmissions(st: DbState, r: Row, now: Time)
    requires ValidBounties(st) && ValidSubmissions(st)
    requires r.sub.id in st.submissions && r.bounty.id == st.submissions[r.sub.id].bountyId && r.bounty.id in st.bounties
    ensures ValidSubmissions(Settle(st, r, now))
  {
    var st' := Settle(st, r, now);
    forall k | k in st'.submissions ensures SubmissionConsistent(st', st'.submissions[k]) {
      assert SubmissionConsistent(st, st.submissions[k]);
    }
    forall k1, k2 | k1 in st'.submissions && k2 in st'.submissions
      ensures (st'.submissions[k1].bountyId, st'.submissions[k1].userId) == (st'.submissions[k2].bountyId, st'.submissions[k2].userId) ==> k1 == k2
    {
      assert st'.submissions[k1].bountyId == st.submissions[k1].bountyId && st'.submissions[k1].userId == st.submissions[k1].userId;
      assert st'.submissions[k2].bountyId == st.submissions[k2].bountyId && st'.submissions[k2].userId == st.submissions[k2].userId;
    }
  }

  /** Snapshot rows stay attached to their submissions while the loop runs:
      settling never changes which bounty a submission belongs to. */
  predicate RowsAttached(st: DbState, rows: seq<Row>) {
    forall i :: 0 <= i < |rows| ==>
      rows[i].sub.id in st.submissions && rows[i].bounty.id == st.submissions[rows[i].sub.id].bountyId
  }

  /** Under the invariant, attached rows name existing bounties. */
  lemma AttachedResolves(st: DbState, rows: seq<Row>)
    requires Valid(st) && RowsAttached(st, rows)
    ensures forall i :: 0 <= i < |rows| ==> rows[i].sub.id in st.submissions && rows[i].bounty.id in st.bounties
  {
    forall i | 0 <= i < |rows| ensures rows[i].bounty.id in st.bounties {
      assert SubmissionConsistent(st, st.submissions[rows[i].sub.id]);
    }
  }

  /** The whole loop keeps the database invariant. */
  lemma {:induction false} SettleRowsPreservesValid(st: DbState, rows: seq<Row>, owner: string, repo: string, now: Time)
    requires Valid(st)
    requires RowsAttached(st, rows)
    requires forall i :: 0 <= i < |rows| ==> rows[i].sub.id in st.submissions && rows[i].bounty.id in st.bounties
    ensures Valid(SettleRows(st, rows, owner, repo, now))
    decreases |rows|
  {
    if rows != [] {
      var front := rows[..|rows| - 1];
      assert forall i :: 0 <= i < |front| ==> front[i] == rows[i];
      SettleRowsPreservesValid(st, front, owner, repo, now);
      var prev := SettleRows(st, front, owner, repo, now);
      var r := rows[|rows| - 1];
      if Qualifies(r, owner, repo) {
        SettleRowsSubmission(st, front, owner, repo, now, r.sub.id);
        SettlePreservesValid(prev, r, now);
      }
    }
  }
}

module SettlementProperties {
  import opened Wrappers
  import opened Store
  import opened Settlement

  /** The bounty of a submission belongs to the webhook's repository and is
      ACTIVE. */
  predicate BountyQualifies(b: Bounty, owner: string, repo: string) {
    b.repoOwner == owner && b.repoName == repo && b.status == Active
  }

  /** Submission `k` is one the merged PR settles: PENDING, carrying the PR
      number, and its bounty in the same repository and ACTIVE. */
  predicate Settles(st: DbState, k: Id, prNumber: int, owner: string, repo: string)
    requires k in st.submissions && st.submissions[k].bountyId in st.bounties
  {
    Selected(st, k, prNumber) && BountyQualifies(st.bounties[st.submissions[k].bountyId], owner, repo)
  }

  /** Submission `k` belongs to bounty `b` and the PR settles it. */
  predicate SettlesFor(st: DbState, k: Id, b: Id, prNumber: int, owner: string, repo: string)
    requires k in st.submissions && st.submissions[k].bountyId in st.bounties
  {
    st.submissions[k].bountyId == b && Settles(st, k, prNumber, owner, repo)
  }

  /** The submitter of the last submission in `order` that the PR settles
      for bounty `b`. */
  function LastSettler(st: DbState, order: seq<Id>, b: Id, prNumber: int, owner: string, repo: string): (u: Option<Id>)
    requires Resolvable(st, order)
    ensures u.None? <==> forall i :: 0 <= i < |order| ==> !SettlesFor(st, order[i], b, prNumber, owner, repo)
    ensures u.Some? ==> exists i :: && 0 <= i < |order|
                                    && SettlesFor(st, order[i], b, prNumber, owner, repo)
                                    && st.submissions[order[i]].userId == u.value
                                    && (forall j :: i < j < |order| ==> !SettlesFor(st, order[j], b, prNumber, owner, repo))
    decreases |order|
  {
    if order == [] then None
    else if SettlesFor(st, order[|order| - 1], b, prNumber, owner, repo) then Some(st.submissions[order[|order| - 1]].userId)
    else
      var front := order[..|order| - 1];
      var u := LastSettler(st, front, b, prNumber, owner, repo);
      assert forall i :: 0 <= i < |front| ==> front[i] == order[i];
      u
  }

  /** The loop's last solver for `b`, read off the snapshot, is the last
      settling submitter in row order. */
  lemma {:induction false} LastSolverOfSnapshot(st: DbState, order: seq<Id>, b: Id, prNumber: int, owner: string, repo: string)
    requires Valid(st) && Resolvable(st, order)
    ensures LastSolver(Snapshot(st, order, prNumber), b, owner, repo) == LastSettler(st, order, b, prNumber, owner, repo)
    decreases |order|
  {
    if order != [] {
      var k := order[|order| - 1];
      var s := st.submissions[k];
      var front := order[..|order| - 1];
      LastSolverOfSnapshot(st, front, b, prNumber, owner, repo);
      assert st.bounties[s.bountyId].id == s.bountyId;
      var rows := Snapshot(st, order, prNumber);
      if s.status == Pending && s.prNumber == prNumber {
        assert rows[..|rows| - 1] == Snapshot(st, front, prNumber);
      }
    }
  }

  /** Under the invariant, any listing of the submission ids resolves. */
  lemma EnumeratedResolvable(st: DbState, order: seq<Id>)
    requires Valid(st) && Enumerates(order, st.submissions.Keys)
    ensures Resolvable(st, order)
  {
    forall i | 0 <= i < |order| ensures st.submissions[order[i]].bountyId in st.bounties {
      assert SubmissionConsistent(st, st.submissions[order[i]]);
    }
  }

  /** Submission `k` after the event: approved exactly when the merged PR
      settles it, otherwise untouched. */
  lemma PullRequestSubmission(st: DbState, action: string, merged: bool, prNumber: int,
                              owner: string, repo: string, order: seq<Id>, now: Time, k: Id)
    requires Valid(st) && Enumerates(order, st.submissions.Keys)
    requires k in st.submissions
    ensures Resolvable(st, order) && SubmissionConsistent(st, st.submissions[k])
    ensures PullRequestSpec(st, action, merged, prNumber, owner, repo, order, now).submissions[k]
      == if action == "closed" && merged && Settles(st, k, prNumber, owner, repo)
         then Approve(st.submissions[k], now) else st.submissions[k]
  {
    assert SubmissionConsistent(st, st.submissions[k]);
    EnumeratedResolvable(st, order);
    if action == "closed" && merged {
      var rows := Snapshot(st, order, prNumber);
      SnapshotRows(st, order, prNumber);
      SettleRowsSubmission(st, rows, owner, repo, now, k);
      if Settles(st, k, prNumber, owner, repo) {
        SnapshotComplete(st, order, prNumber, k);
        var i :| 0 <= i < |rows| && rows[i].sub == st.submissions[k];
        assert rows[i].sub.id == k;
        assert SettlesSubmission(rows, k, owner, repo);
      }
    }
  }

  /** Bounty `b` after the event: SOLVED by the last settling submitter in
      row order, or untouched when no submission of it is settled. */
  lemma PullRequestBounty(st: DbState, action: string, merged: bool, prNumber: int,
                          owner: string, repo: string, order: seq<Id>, now: Time, b: Id)
    requires Valid(st) && Enumerates(order, st.submissions.Keys)
    requires b in st.bounties
    ensures Resolvable(st, order)
    ensures PullRequestSpec(st, action, merged, prNumber, owner, repo, order, now).bounties[b]
      == if !(action == "closed" && merged) then st.bounties[b]
         else match LastSettler(st, order, b, prNumber, owner, repo)
           case None => st.bounties[b]
           case Some(u) => Solve(st.bounties[b], now, u)
  {
    EnumeratedResolvable(st, order);
    if action == "closed" && merged {
      var rows := Snapshot(st, order, prNumber);
      SnapshotRows(st, order, prNumber);
      SettleRowsBounty(st, rows, owner, repo, now, b);
      LastSolverOfSnapshot(st, order, b, prNumber, owner, repo);
    }
  }

  /** The pull-request handler keeps the database invariant. */
  lemma PullRequestPreservesValid(st: DbState, action: string, merged: bool, prNumber: int,
                                  owner: string, repo: string, order: seq<Id>, now: Time)
    requires Valid(st) && Resolvable(st, order)
    ensures Valid(PullRequestSpec(st, action, merged, prNumber, owner, repo, order, now))
  {
    if action == "closed" && merged {
      var rows := Snapshot(st, order, prNumber);
      SnapshotRows(st, order, prNumber);
      assert RowsAttached(st, rows);
      AttachedResolves(st, rows);
      SettleRowsPreservesValid(st, rows, owner, repo, now);
    }
  }

  /** Only an ACTIVE bounty of the webhook's own repository can change, and
      a bounty that changes becomes SOLVED with a solver who has an approved
      submission for it from this PR. */
  lemma PullRequestOnlyActiveSolved(st: DbState, action: string, merged: bool, prNumber: int,
                                    owner: string, repo: string, order: seq<Id>, now: Time, b: Id)
    requires Valid(st) && Enumerates(order, st.submissions.Keys)
    requires b in st.bounties
    ensures Resolvable(st, order)
    ensures var st' := PullRequestSpec(st, action, merged, prNumber, owner, repo, order, now);
      st'.bounties[b] != st.bounties[b] ==>
        && action == "closed" && merged
        && BountyQualifies(st.bounties[b], owner, repo)
        && st'.bounties[b].status == Solved && st'.bounties[b].isSolved && st'.bounties[b].solvedAt == Some(now)
        && (exists k :: && k in st.submissions && st.submissions[k].bountyId == b
                        && Settles(st, k, prNumber, owner, repo)
                        && st'.submissions[k] == Approve(st.submissions[k], now)
                        && st'.bounties[b].solvedBy == Some(st.submissions[k].userId))
  {
    PullRequestBounty(st, action, merged, prNumber, owner, repo, order, now, b);
    var st' := PullRequestSpec(st, action, merged, prNumber, owner, repo, order, now);
    if st'.bounties[b] != st.bounties[b] {
      var u := LastSettler(st, order, b, prNumber, owner, repo);
      assert u.Some?;
      var i :| 0 <= i < |order| && SettlesFor(st, order[i], b, prNumber, owner, repo)
               && st.submissions[order[i]].userId == u.value;
      var k := order[i];
      PullRequestSubmission(st, action, merged, prNumber, owner, repo, order, now, k);
      assert st'.bounties[b].solvedBy == Some(st.submissions[k].userId);
    }
  }

  /** Submissions and bounties of another repository are never touched. */
  lemma PullRequestCrossRepoIsolation(st: DbState, action: string, merged: bool, prNumber: int,
                                      owner: string, repo: string, order: seq<Id>, now: Time)
    requires Valid(st) && Enumerates(order, st.submissions.Keys)
    ensures var st' := PullRequestSpec(st, action, merged, prNumber, owner, repo, order, now);
      && (forall b :: b in st.bounties && (st.bounties[b].repoOwner, st.bounties[b].repoName) != (owner, repo) ==>
            b in st'.bounties && st'.bounties[b] == st.bounties[b])
      && (forall k :: (&& k in st.submissions && st.submissions[k].bountyId in st.bounties
                       && (st.bounties[st.submissions[k].bountyId].repoOwner,
                           st.bounties[st.submissions[k].bountyId].repoName) != (owner, repo)) ==>
            k in st'.submissions && st'.submissions[k] == st.submissions[k])
  {
    EnumeratedResolvable(st, order);
    var st' := PullRequestSpec(st, action, merged, prNumber, owner, repo, order, now);
    forall b | b in st.bounties && (st.bounties[b].repoOwner, st.bounties[b].repoName) != (owner, repo)
      ensures b in st'.bounties && st'.bounties[b] == st.bounties[b]
    {
      PullRequestOnlyActiveSolved(st, action, merged, prNumber, owner, repo, order, now, b);
    }
    forall k | k in st.submissions && st.submissions[k].bountyId in st.bounties &&
      (st.bounties[st.submissions[k].bountyId].repoOwner, st.bounties[st.submissions[k].bountyId].repoName) != (owner, repo)
      ensures k in st'.submissions && st'.submissions[k] == st.submissions[k]
    {
      PullRequestSubmission(st, action, merged, prNumber, owner, repo, order, now, k);
    }
  }

  /** When several submissions of one bounty are settled by the same PR, the
      bounty's recorded solver is the submitter of the last of them in row
      order (each iteration overwrites `solvedBy`). */
  lemma PullRequestLastSolverWins(st: DbState, action: string, merged: bool, prNumber: int,
                                  owner: string, repo: string, order: seq<Id>, now: Time, b: Id, i: nat)
    requires Valid(st) && Enumerates(order, st.submissions.Keys)
    requires action == "closed" && merged && b in st.bounties && i < |order|
    requires st.submissions[order[i]].bountyId == b && Settles(st, order[i], prNumber, owner, repo)
    requires forall j :: i < j < |order| ==>
      !(st.submissions[order[j]].bountyId == b && Settles(st, order[j], prNumber, owner, repo))
    ensures PullRequestSpec(st, action, merged, prNumber, owner, repo, order, now).bounties[b].solvedBy
      == Some(st.submissions[order[i]].userId)
  {
    PullRequestBounty(st, action, merged, prNumber, owner, repo, order, now, b);
    assert SettlesFor(st, order[i], b, prNumber, owner, repo);
    var u := LastSettler(st, order, b, prNumber, owner, repo);
    var i' :| && 0 <= i' < |order|
              && SettlesFor(st, order[i'], b, prNumber, owner, repo)
              && st.submissions[order[i']].userId == u.value
              && (forall j :: i' < j < |order| ==> !SettlesFor(st, order[j], b, prNumber, owner, repo));
  }

  /** Once a merged PR has been applied, it settles nothing more. */
  lemma NothingLeftToSettle(st: DbState, action: string, merged: bool, prNumber: int,
                            owner: string, repo: string, order: seq<Id>, now: Time)
    requires Valid(st) && Enumerates(order, st.submissions.Keys)
    requires action == "closed" && merged
    ensures Resolvable(st, order)
    ensures var st' := PullRequestSpec(st, action, merged, prNumber, owner, repo, order, now);
      Valid(st') && st'.submissions.Keys == st.submissions.Keys &&
      forall k :: k in st'.submissions ==> st'.submissions[k].bountyId in st'.bounties && !Settles(st', k, prNumber, owner, repo)
  {
    EnumeratedResolvable(st, order);
    PullRequestPreservesValid(st, action, merged, prNumber, owner, repo, order, now);
    var st' := PullRequestSpec(st, action, merged, prNumber, owner, repo, order, now);
    forall k | k in st'.submissions
      ensures st'.submissions[k].bountyId in st'.bounties && !Settles(st', k, prNumber, owner, repo)
    {
      assert SubmissionConsistent(st', st'.submissions[k]);
      PullRequestSubmission(st, action, merged, prNumber, owner, repo, order, now, k);
      var b := st.submissions[k].bountyId;
      PullRequestBounty(st, action, merged, prNumber, owner, repo, order, now, b);
    }
  }

  /** A merged PR that settles no submission leaves the database as it is. */
  lemma NoSettlerNoChange(st: DbState, action: string, merged: bool, prNumber: int,
                          owner: string, repo: string, order: seq<Id>, now: Time)
    requires Valid(st) && Resolvable(st, order)
    requires forall k :: k in st.submissions ==> !Settles(st, k, prNumber, owner, repo)
    ensures PullRequestSpec(st, action, merged, prNumber, owner, repo, order, now) == st
  {
    if action == "closed" && merged {
      var rows := Snapshot(st, order, prNumber);
      SnapshotRows(st, order, prNumber);
      AttachedResolves(st, rows);
      forall j | 0 <= j < |rows| ensures !Qualifies(rows[j], owner, repo) {
        assert RowOf(st, rows[j]);
        assert !Settles(st, rows[j].sub.id, prNumber, owner, repo);
      }
      SettleRowsNoneQualify(st, rows, owner, repo, now);
    }
  }

  /** Redelivering the same merged-PR event changes nothing more: every
      submission it settled is no longer PENDING and every bounty it touched
      is no longer ACTIVE. */
  lemma PullRequestIdempotent(st: DbState, action: string, merged: bool, prNumber: int,
                              owner: string, repo: string, order: seq<Id>, now: Time, later: Time)
    requires Valid(st) && Enumerates(order, st.submissions.Keys)
    ensures Resolvable(st, order)
    ensures var st' := PullRequestSpec(st, action, merged, prNumber, owner, repo, order, now);
      Valid(st') && Resolvable(st', order) &&
      PullRequestSpec(st', action, merged, prNumber, owner, repo, order, later) == st'
  {
    EnumeratedResolvable(st, order);
    PullRequestPreservesValid(st, action, merged, prNumber, owner, repo, order, now);
    var st' := PullRequestSpec(st, action, merged, prNumber, owner, repo, order, now);
    if action == "closed" && merged {
      NothingLeftToSettle(st, action, merged, prNumber, owner, repo, order, now);
      EnumeratedResolvable(st', order);
      NoSettlerNoChange(st', action, merged, prNumber, owner, repo, order, later);
    } else {
      EnumeratedResolvable(st', order);
    }
  }
}
