/**
 * The client-side logic of the dashboard and bounties pages and of the
 * bounty and issue cards: reading a pull-request number out of a URL,
 * deciding whether a solution or a new bounty is sent, updating the
 * bounty lists after a create, an edit or a delete, and the display
 * rules of the two cards. Rendering, prompts, alerts and requests are
 * outside the model: each decision is returned as a value.
 */
module Client {
  import opened Wrappers
  import opened Strings
  import opened JsValues

  /** A string that is present and not empty (truthy). */
  predicate Filled(o: Option<string>) {
    o.Some? && o.value != ""
  }

  /** `a || b` on two optional strings. */
  function OrElse(a: Option<string>, b: Option<string>): (r: Option<string>)
    ensures Filled(r) <==> Filled(a) || Filled(b)
    ensures Filled(a) ==> r == a
  {
    if Filled(a) then a else b
  }

  // ---------------------------------------------------------------------
  // Pull-request numbers

  const PullMarker := "/pull/"

  /** The regular expression `/\/pull\/(\d+)/` matches at `i`: `/pull/`
      followed by at least one ASCII digit. */
  predicate PullMatchAt(url: string, i: int) {
    OccursAt(url, PullMarker, i) && i + 6 < |url| && IsDecimalDigit(url[i + 6])
  }

  /** The leftmost match at or after `from`. */
  function FindPull(url: string, from: nat): (p: Option<nat>)
    requires from <= |url|
    ensures p.Some? ==> from <= p.value && PullMatchAt(url, p.value)
    ensures p.Some? ==> forall i :: from <= i < p.value ==> !PullMatchAt(url, i)
    ensures p.None? ==> forall i :: from <= i ==> !PullMatchAt(url, i)
    decreases |url| - from
  {
    if from == |url| then None
    else if PullMatchAt(url, from) then Some(from)
    else FindPull(url, from + 1)
  }

  /** `extractPrNumberFromUrl`: the value of the digit run after the
      leftmost `/pull/` that a digit follows, `null` (`None`) when there is
      none. `parseInt` of a run of decimal digits is its decimal value. */
  function ExtractPrNumber(url: string): (n: Option<nat>)
    ensures n.Some? <==> exists i :: PullMatchAt(url, i)
    ensures n.Some? ==> exists p :: && PullMatchAt(url, p)
                                    && (forall i :: 0 <= i < p ==> !PullMatchAt(url, i))
                                    && n.value == DigitsValue(DigitRun(url[p + 6..], false), false)
  {
    match FindPull(url, 0)
    case None => None
    case Some(p) => Some(DigitsValue(DigitRun(url[p + 6..], false), false))
  }

  /** The digit run of a numeral followed by a non-digit is the numeral. */
  lemma {:induction false} DigitRunStops(ds: string, tail: string)
    requires forall k :: 0 <= k < |ds| ==> IsDecimalDigit(ds[k])
    requires tail == [] || !IsDecimalDigit(tail[0])
    ensures DigitRun(ds + tail, false) == ds
  {
    if ds != [] {
      DigitRunStops(ds[1..], tail);
      assert (ds + tail)[1..] == ds[1..] + tail;
    } else {
      assert ds + tail == tail;
    }
  }

  /** No match can straddle the start of a `/pull/<digit>` that follows
      `prefix`: a match starting inside `prefix` lies inside it. */
  lemma NoStraddle(prefix: string, rest: string, i: int)
    requires OccursAt(rest, PullMarker, 0)
    requires 0 <= i < |prefix|
    requires PullMatchAt(prefix + rest, i)
    ensures PullMatchAt(prefix, i)
  {
    var url := prefix + rest;
    var p := |prefix|;
    assert url[i..i + 6] == PullMarker;
    if i + 6 >= p {
      assert false;
    }
    assert prefix[i..i + 6] == url[i..i + 6];
    assert prefix[i + 6] == url[i + 6];
  }

  /** The search finds the leftmost match. */
  lemma FindPullLeftmost(url: string, p: nat)
    requires PullMatchAt(url, p)
    requires forall i :: 0 <= i < p ==> !PullMatchAt(url, i)
    ensures FindPull(url, 0) == Some(p)
  {
  }

  /** `/pull/` and a digit match where they are written. */
  lemma MarkerMatches(prefix: string, ds: string, tail: string)
    requires ds != [] && IsDecimalDigit(ds[0])
    ensures PullMatchAt(prefix + (PullMarker + ds + tail), |prefix|)
  {
    var rest := PullMarker + ds + tail;
    var url := prefix + rest;
    var p := |prefix|;
    assert url[p..p + 6] == rest[0..6] == PullMarker;
    assert url[p + 6] == rest[6] == ds[0];
  }

  /** With no match inside `prefix`, nothing matches before `/pull/`. */
  lemma NoEarlierMatch(prefix: string, rest: string)
    requires forall i :: !PullMatchAt(prefix, i)
    requires OccursAt(rest, PullMarker, 0)
    ensures forall i :: 0 <= i < |prefix| ==> !PullMatchAt(prefix + rest, i)
  {
    forall i | 0 <= i < |prefix| ensures !PullMatchAt(prefix + rest, i) {
      if PullMatchAt(prefix + rest, i) {
        NoStraddle(prefix, rest, i);
      }
    }
  }

  /** The number read is that of the digits after the leftmost match. */
  lemma ExtractAt(url: string, p: nat)
    requires FindPull(url, 0) == Some(p)
    ensures p + 6 <= |url|
    ensures ExtractPrNumber(url) == Some(DigitsValue(DigitRun(url[p + 6..], false), false))
  {
  }

  /** The digits after the marker, when the URL is written with them. */
  lemma DigitsAfterMarker(prefix: string, ds: string, tail: string)
    requires forall k :: 0 <= k < |ds| ==> IsDecimalDigit(ds[k])
    requires tail == [] || !IsDecimalDigit(tail[0])
    ensures |prefix| + 6 <= |prefix + (PullMarker + ds + tail)|
    ensures DigitRun((prefix + (PullMarker + ds + tail))[|prefix| + 6..], false) == ds
  {
    var url := prefix + (PullMarker + ds + tail);
    assert url[|prefix| + 6..] == ds + tail;
    DigitRunStops(ds, tail);
  }

  /** A run of digits written after `/pull/` is read back, provided
      nothing before it already matches and no digit follows it. */
  lemma PrDigitsRoundTrip(prefix: string, ds: string, tail: string)
    requires forall i :: !PullMatchAt(prefix, i)
    requires ds != [] && forall k :: 0 <= k < |ds| ==> IsDecimalDigit(ds[k])
    requires tail == [] || !IsDecimalDigit(tail[0])
    ensures ExtractPrNumber(prefix + (PullMarker + ds + tail)) == Some(DigitsValue(ds, false))
  {
    var rest := PullMarker + ds + tail;
    var url := prefix + rest;
    var p := |prefix|;
    MarkerMatches(prefix, ds, tail);
    assert rest[0..6] == PullMarker;
    NoEarlierMatch(prefix, rest);
    FindPullLeftmost(url, p);
    ExtractAt(url, p);
    DigitsAfterMarker(prefix, ds, tail);
  }

  /** The number written after `/pull/` is read back, provided nothing
      before it already matches and it is not followed by another digit. */
  lemma PrUrlRoundTrip(prefix: string, n: nat, tail: string)
    requires forall i :: !PullMatchAt(prefix, i)
    requires tail == [] || !IsDecimalDigit(tail[0])
    ensures ExtractPrNumber(prefix + (PullMarker + DecimalString(n) + tail)) == Some(n)
  {
    var ds := DecimalString(n);
    PrDigitsRoundTrip(prefix, ds, tail);
    DecimalStringValue(n);
  }

  // ---------------------------------------------------------------------
  // Submitting a solution

  /** What a "Submit Solution" click leads to. */
  datatype SubmitStep = NoAction | InvalidUrlAlert | Submit(bountyId: string, prUrl: string, prNumber: nat)

  /** The pages' click handler, given the prompt's answer (`None` when it
      is cancelled): an empty answer does nothing, a URL with no truthy
      PR number (none, or 0) raises the alert, any other is submitted. */
  function SubmitFromPrompt(bountyId: string, answer: Option<string>): SubmitStep
  {
    if !Filled(answer) then NoAction
    else match ExtractPrNumber(answer.value)
      case Some(n) => if n != 0 then Submit(bountyId, answer.value, n) else InvalidUrlAlert
      case None => InvalidUrlAlert
  }

  /** `BountyCard`'s `handleSubmitSolution`: nothing at all without an
      `onSubmitSolution` callback, else the same as the pages. */
  function CardSubmit(hasCallback: bool, bountyId: string, answer: Option<string>): SubmitStep
  {
    if !hasCallback then NoAction else SubmitFromPrompt(bountyId, answer)
  }

  /** A solution is sent exactly when the answer is a URL whose extracted
      number is truthy, and it is sent with that URL and number; a URL
      without one raises the alert. */
  lemma SubmitGating(hasCallback: bool, bountyId: string, answer: Option<string>)
    ensures var s := CardSubmit(hasCallback, bountyId, answer);
      && (!hasCallback ==> s == NoAction)
      && (s.Submit? <==> (hasCallback && Filled(answer)
                          && ExtractPrNumber(answer.value).Some? && ExtractPrNumber(answer.value).value != 0))
      && (s.Submit? ==> s == Submit(bountyId, answer.value, ExtractPrNumber(answer.value).value))
      && (s == InvalidUrlAlert <==> (hasCallback && Filled(answer)
                          && (ExtractPrNumber(answer.value).None? || ExtractPrNumber(answer.value).value == 0)))
      && (hasCallback ==> s == SubmitFromPrompt(bountyId, answer))
  {
  }

  // ---------------------------------------------------------------------
  // Creating a bounty from an issue

  /** The repository of a GitHub issue, when the payload has one. */
  datatype RepoView = RepoView(name: Option<string>, fullName: Option<string>, ownerLogin: Option<string>)

  /** A GitHub issue as the pages and the issue card read it. */
  datatype IssueView = IssueView(number: int, title: string, body: Option<string>, htmlUrl: string,
                                 repositoryUrl: Option<string>, repository: Option<RepoView>)

  function OwnerLogin(issue: IssueView): Option<string> {
    if issue.repository.Some? then issue.repository.value.ownerLogin else None
  }

  function RepoNameField(issue: IssueView): Option<string> {
    if issue.repository.Some? then issue.repository.value.name else None
  }

  /** The pages' `repository.owner.login || repository_url?.split("/")
      .slice(-2, -1)[0]`. */
  function PageRepoOwner(issue: IssueView): Option<string> {
    OrElse(OwnerLogin(issue),
           if issue.repositoryUrl.Some? then SecondToLast(Split(issue.repositoryUrl.value, '/')) else None)
  }

  /** The pages' `repository.name || repository_url?.split("/")
      .slice(-1)[0]`. */
  function PageRepoName(issue: IssueView): Option<string> {
    OrElse(RepoNameField(issue),
           if issue.repositoryUrl.Some? then Some(Last(Split(issue.repositoryUrl.value, '/'))) else None)
  }

  /** A usable owner or repository name: present, not empty and not the
      placeholder "unknown". */
  predicate Usable(o: Option<string>) {
    Filled(o) && o.value != "unknown"
  }

  /** The body of `POST /api/bounties` without the amount, which is a
      floating-point number. */
  datatype BountyRequest = BountyRequest(githubIssueId: int, githubRepoOwner: string, githubRepoName: string,
                                         title: string, description: string, githubIssueUrl: string)

  datatype CreateStep = Ignore | RepoInfoAlert | NoTokenAlert | Post(request: BountyRequest)

  /** `createBounty` up to the request: nothing without a selected issue,
      an amount or a signed-in user; the alert when the owner or name is
      not usable; another alert without an access token; otherwise the
      request, whose owner and name fall back to "unknown". */
  function CreateBountyStep(selected: Option<IssueView>, amount: string, authenticated: bool,
                            accessToken: Option<string>): CreateStep
  {
    if selected.None? || amount == "" || !authenticated then Ignore
    else
      var issue := selected.value;
      var owner := PageRepoOwner(issue);
      var name := PageRepoName(issue);
      if !Usable(owner) || !Usable(name) then RepoInfoAlert
      else if !Filled(accessToken) then NoTokenAlert
      else
        var sentOwner := OrElse(owner, Some("unknown")).value;
        var sentName := OrElse(name, Some("unknown")).value;
        Post(BountyRequest(issue.number, sentOwner, sentName, issue.title,
                           if Filled(issue.body) then issue.body.value else "", issue.htmlUrl))
  }

  /** The guards, in order, and what a request carries: the derived owner
      and name, never "unknown" and never empty. */
  lemma CreateBountyGuards(selected: Option<IssueView>, amount: string, authenticated: bool,
                           accessToken: Option<string>)
    ensures var s := CreateBountyStep(selected, amount, authenticated, accessToken);
      && (s == Ignore <==> selected.None? || amount == "" || !authenticated)
      && (s == RepoInfoAlert <==> (selected.Some? && amount != "" && authenticated
                                   && !(Usable(PageRepoOwner(selected.value)) && Usable(PageRepoName(selected.value)))))
      && (s.Post? ==>
            && Filled(accessToken)
            && Some(s.request.githubRepoOwner) == PageRepoOwner(selected.value)
            && Some(s.request.githubRepoName) == PageRepoName(selected.value)
            && s.request.githubRepoOwner !in {"", "unknown"} && s.request.githubRepoName !in {"", "unknown"}
            && s.request.githubIssueId == selected.value.number
            && s.request.title == selected.value.title)
  {
  }

  /** For an issue whose payload carries only `repository_url`, the
      request names the URL's last two path segments. */
  lemma CreateFromRepositoryUrl(issue: IssueView, parts: seq<string>, amount: string, token: string)
    requires issue.repository.None?
    requires |parts| >= 2 && forall k :: 0 <= k < |parts| ==> '/' !in parts[k]
    requires issue.repositoryUrl == Some(Join(parts, '/'))
    requires Usable(Some(parts[|parts| - 2])) && Usable(Some(parts[|parts| - 1]))
    requires amount != "" && token != ""
    ensures var s := CreateBountyStep(Some(issue), amount, true, Some(token));
      s.Post? && s.request.githubRepoOwner == parts[|parts| - 2] && s.request.githubRepoName == parts[|parts| - 1]
  {
    SplitJoin(parts, '/');
  }

  // ---------------------------------------------------------------------
  // The bounty lists

  /** A solver as the list endpoints attach it. */
  datatype SolverView = SolverView(name: Option<string>, username: Option<string>, image: Option<string>,
                                   walletAddress: Option<string>)

  /** A bounty as the pages hold it. */
  datatype BountyView = BountyView(id: string, title: string, description: string, status: string,
                                   solver: Option<SolverView>)

  /** The two lists the pages keep: all bounties and the caller's own. */
  datatype Lists = Lists(bounties: seq<BountyView>, myBounties: seq<BountyView>)

  function ReplaceById(xs: seq<BountyView>, id: string, updated: BountyView): (r: seq<BountyView>)
  {
    seq(|xs|, i requires 0 <= i < |xs| => if xs[i].id == id then updated else xs[i])
  }

  function RemoveById(xs: seq<BountyView>, id: string): (r: seq<BountyView>)
  {
    if xs == [] then []
    else if xs[0].id != id then [xs[0]] + RemoveById(xs[1..], id)
    else RemoveById(xs[1..], id)
  }

  /** After a successful create: the new bounty first in both lists. */
  function AfterCreate(l: Lists, created: BountyView): Lists {
    Lists([created] + l.bounties, [created] + l.myBounties)
  }

  /** After a successful edit of the bounty `id`. */
  function AfterUpdate(l: Lists, id: string, updated: BountyView): Lists {
    Lists(ReplaceById(l.bounties, id, updated), ReplaceById(l.myBounties, id, updated))
  }

  /** After a successful delete of the bounty `id`. */
  function AfterDelete(l: Lists, id: string): Lists {
    Lists(RemoveById(l.bounties, id), RemoveById(l.myBounties, id))
  }

  /** An update replaces exactly the entries with the edited id: the
      length, the order and every other entry are kept. */
  lemma ReplaceByIdExact(xs: seq<BountyView>, id: string, updated: BountyView)
    ensures var r := ReplaceById(xs, id, updated);
      && |r| == |xs|
      && (forall i :: 0 <= i < |xs| && xs[i].id == id ==> r[i] == updated)
      && (forall i :: 0 <= i < |xs| && xs[i].id != id ==> r[i] == xs[i])
      && (updated.id == id ==> ReplaceById(r, id, updated) == r)
  {
  }

  /** A delete removes exactly the entries with that id and keeps every
      other entry, each as often as before. */
  lemma {:induction false} RemoveByIdExact(xs: seq<BountyView>, id: string)
    ensures var r := RemoveById(xs, id);
      && (forall x :: x in r <==> x in xs && x.id != id)
      && (forall x: BountyView :: x.id != id ==> multiset(r)[x] == multiset(xs)[x])
      && |r| <= |xs|
  {
    if xs != [] {
      RemoveByIdExact(xs[1..], id);
      assert xs == [xs[0]] + xs[1..];
    }
  }

  /** A delete keeps the order of the rest: deleting from a list split in
      two deletes from each half. */
  lemma {:induction false} RemoveByIdAppend(xs: seq<BountyView>, ys: seq<BountyView>, id: string)
    ensures RemoveById(xs + ys, id) == RemoveById(xs, id) + RemoveById(ys, id)
  {
    if xs == [] {
      assert xs + ys == ys;
    } else {
      RemoveByIdAppend(xs[1..], ys, id);
      assert (xs + ys)[1..] == xs[1..] + ys;
    }
  }

  /** A list with no entry for `id` is unchanged by deleting `id`. */
  lemma {:induction false} RemoveByIdAbsent(xs: seq<BountyView>, id: string)
    requires forall i :: 0 <= i < |xs| ==> xs[i].id != id
    ensures RemoveById(xs, id) == xs
  {
    if xs != [] {
      RemoveByIdAbsent(xs[1..], id);
      assert xs == [xs[0]] + xs[1..];
    }
  }

  /** Deleting a bounty just created, whose id was new, gives back both
      lists as they were. */
  lemma CreateThenDelete(l: Lists, created: BountyView)
    requires forall i :: 0 <= i < |l.bounties| ==> l.bounties[i].id != created.id
    requires forall i :: 0 <= i < |l.myBounties| ==> l.myBounties[i].id != created.id
    ensures AfterDelete(AfterCreate(l, created), created.id) == l
  {
    RemoveByIdAbsent(l.bounties, created.id);
    RemoveByIdAbsent(l.myBounties, created.id);
    RemoveByIdAppend([created], l.bounties, created.id);
    RemoveByIdAppend([created], l.myBounties, created.id);
    assert RemoveById([created], created.id) == [];
  }

  /** An edit never changes which ids are present: deleting after an edit
      that keeps the id is deleting. */
  lemma {:induction false} UpdateThenDelete(xs: seq<BountyView>, id: string, updated: BountyView)
    requires updated.id == id
    ensures RemoveById(ReplaceById(xs, id, updated), id) == RemoveById(xs, id)
  {
    if xs != [] {
      UpdateThenDelete(xs[1..], id, updated);
      assert ReplaceById(xs, id, updated)[1..] == ReplaceById(xs[1..], id, updated);
    }
  }

  // ---------------------------------------------------------------------
  // Searching

  /** `performSearch` runs only when `searchQuery.trim()` is not empty. */
  predicate SearchRuns(query: string) {
    Trim(query) != []
  }

  /** A search runs exactly when the query has a character that is not
      white space. */
  lemma SearchBlankGuard(query: string)
    ensures SearchRuns(query) <==> exists k :: 0 <= k < |query| && !IsJsSpace(query[k])
  {
    TrimEmpty(query);
  }

  // ---------------------------------------------------------------------
  // The bounty card

  /** `slice(0, 6) + "..." + slice(-4)`. */
  function ShortWallet(w: string): (r: string)
  {
    Prefix(w, 6) + "..." + w[if |w| >= 4 then |w| - 4 else 0..]
  }

  /** What the solver block shows. */
  datatype SolverBlock = SolverBlock(name: string, github: Option<string>, wallet: Option<string>)

  /** The buttons: Edit and Delete, each only with its callback, or
      Submit Solution. */
  datatype Buttons = Manage(edit: bool, delete: bool) | SubmitSolution

  datatype BountyCardView = BountyCardView(preview: string, solver: Option<SolverBlock>,
                                           installStatus: bool, buttons: Buttons)

  function SolverBlockOf(s: SolverView): SolverBlock {
    SolverBlock(
      OrElse(s.name, OrElse(s.username, Some("Anonymous"))).value,
      if Filled(s.username) then s.username else None,
      if Filled(s.walletAddress) then Some(ShortWallet(s.walletAddress.value)) else None)
  }

  /** `BountyCard` for a bounty and its props. */
  function BountyCardOf(b: BountyView, showManageButtons: bool, authenticated: bool,
                        hasEdit: bool, hasDelete: bool): BountyCardView
  {
    BountyCardView(
      Prefix(b.description, 150),
      if b.status == "SOLVED" && b.solver.Some? then Some(SolverBlockOf(b.solver.value)) else None,
      authenticated,
      if showManageButtons && b.status == "ACTIVE" then Manage(hasEdit, hasDelete) else SubmitSolution)
  }

  /** A long wallet is shown as its first six and last four characters
      around "..."; a short one keeps whatever of it those slices give. */
  lemma ShortWalletShape(w: string)
    ensures var r := ShortWallet(w);
      && (|w| >= 6 ==> r[..6] == w[..6])
      && (|w| >= 4 ==> |r| >= 4 && r[|r| - 4..] == w[|w| - 4..])
      && (|w| >= 10 ==> |r| == 13 && r == w[..6] + "..." + w[|w| - 4..])
      && (|w| < 4 ==> r == w + "..." + w)
  {
    var r := ShortWallet(w);
    if |w| >= 4 {
      assert r[|r| - 4..] == w[|w| - 4..];
    }
  }

  /** Manage buttons only for an ACTIVE bounty with `showManageButtons`;
      the solver block only for a SOLVED bounty with a solver, named by
      its name, else its username, else "Anonymous"; the preview is at
      most 150 characters of the description. */
  lemma BountyCardRules(b: BountyView, showManageButtons: bool, authenticated: bool, hasEdit: bool, hasDelete: bool)
    ensures var v := BountyCardOf(b, showManageButtons, authenticated, hasEdit, hasDelete);
      && (v.buttons.Manage? <==> showManageButtons && b.status == "ACTIVE")
      && (v.buttons.Manage? ==> v.buttons == Manage(hasEdit, hasDelete))
      && (v.solver.Some? <==> b.status == "SOLVED" && b.solver.Some?)
      && (v.solver.Some? ==>
            && (Filled(b.solver.value.name) ==> v.solver.value.name == b.solver.value.name.value)
            && (!Filled(b.solver.value.name) && Filled(b.solver.value.username) ==>
                  v.solver.value.name == b.solver.value.username.value)
            && (!Filled(b.solver.value.name) && !Filled(b.solver.value.username) ==> v.solver.value.name == "Anonymous")
            && (v.solver.value.wallet.Some? <==> Filled(b.solver.value.walletAddress)))
      && v.preview <= b.description && |v.preview| <= 150
      && (|b.description| <= 150 ==> v.preview == b.description)
      && (v.buttons.Manage? ==> !v.solver.Some?)
  {
  }

  // ---------------------------------------------------------------------
  // The issue card

  /** `IssueCard`'s `repoOwner`: the owner's login, else the second-to-last
      segment of a non-empty `repository_url`, else `null`. */
  function CardRepoOwner(issue: IssueView): Option<string> {
    OrElse(OwnerLogin(issue),
           if Filled(issue.repositoryUrl) then SecondToLast(Split(issue.repositoryUrl.value, '/')) else None)
  }

  /** `IssueCard`'s `repoName`: the repository's name, else the last
      segment of a non-empty `repository_url`, else `null`. */
  function CardRepoName(issue: IssueView): Option<string> {
    OrElse(RepoNameField(issue),
           if Filled(issue.repositoryUrl) then Some(Last(Split(issue.repositoryUrl.value, '/'))) else None)
  }

  /** The repository label: `full_name`, else the last two segments of a
      non-empty `repository_url` joined by "/", else "Unknown Repository". */
  function RepoLabel(issue: IssueView): string {
    var fullName := if issue.repository.Some? then issue.repository.value.fullName else None;
    if Filled(fullName) then fullName.value
    else if Filled(issue.repositoryUrl) then Join(LastTwo(Split(issue.repositoryUrl.value, '/')), '/')
    else "Unknown Repository"
  }

  datatype IssueCardView = IssueCardView(installStatus: Option<(string, string)>, repoLabel: string,
                                         preview: Option<string>, addBounty: bool)

  /** `IssueCard` for an issue and its props. */
  function IssueCardOf(issue: IssueView, authenticated: bool, hasAddBounty: bool): IssueCardView {
    var owner := CardRepoOwner(issue);
    var name := CardRepoName(issue);
    IssueCardView(
      if authenticated && Filled(owner) && Filled(name) then Some((owner.value, name.value)) else None,
      RepoLabel(issue),
      if issue.body.Some? then Some(Prefix(issue.body.value, 150)) else None,
      hasAddBounty)
  }

  /** The installation status is shown, for the derived owner and name,
      exactly when the user is signed in and both are non-empty; the
      preview is a prefix of at most 150 characters; Add Bounty only with
      its callback. */
  lemma IssueCardRules(issue: IssueView, authenticated: bool, hasAddBounty: bool)
    ensures var v := IssueCardOf(issue, authenticated, hasAddBounty);
      && (v.installStatus.Some? <==> authenticated && Filled(CardRepoOwner(issue)) && Filled(CardRepoName(issue)))
      && (v.installStatus.Some? ==> Some(v.installStatus.value.0) == CardRepoOwner(issue)
                                    && Some(v.installStatus.value.1) == CardRepoName(issue))
      && (v.preview.Some? <==> issue.body.Some?)
      && (v.preview.Some? ==> v.preview.value <= issue.body.value && |v.preview.value| <= 150)
      && (v.addBounty <==> hasAddBounty)
  {
  }

  /** The card and the pages agree on when an owner or a name is there,
      and on its value then; they differ only in `null` versus an empty
      string for an empty `repository_url`. */
  lemma CardAgreesWithPages(issue: IssueView)
    ensures Filled(CardRepoOwner(issue)) <==> Filled(PageRepoOwner(issue))
    ensures Filled(CardRepoOwner(issue)) ==> CardRepoOwner(issue) == PageRepoOwner(issue)
    ensures Filled(CardRepoName(issue)) <==> Filled(PageRepoName(issue))
    ensures Filled(CardRepoName(issue)) ==> CardRepoName(issue) == PageRepoName(issue)
  {
    if issue.repositoryUrl == Some("") {
      assert Split("", '/') == [""];
    }
  }

  /** Without a `repository` object, the label of an issue whose
      `repository_url` ends in `owner/name` is "owner/name", and the card
      derives that owner and name. */
  lemma RepoLabelFromUrl(issue: IssueView, parts: seq<string>)
    requires issue.repository.None?
    requires |parts| >= 2 && forall k :: 0 <= k < |parts| ==> '/' !in parts[k]
    requires issue.repositoryUrl == Some(Join(parts, '/'))
    ensures Filled(issue.repositoryUrl) ==>
              && RepoLabel(issue) == parts[|parts| - 2] + "/" + parts[|parts| - 1]
              && CardRepoOwner(issue) == OrElse(None, Some(parts[|parts| - 2]))
              && CardRepoName(issue) == Some(parts[|parts| - 1])
  {
    SplitJoin(parts, '/');
    var two := [parts[|parts| - 2], parts[|parts| - 1]];
    assert Join(two, '/') == parts[|parts| - 2] + ['/'] + Join(two[1..], '/');
  }
}
