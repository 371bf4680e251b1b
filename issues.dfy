/**
 * `GET /api/github/user/issues`: the signed-in user's GitHub issues. The
 * caller is authenticated with a Bearer token and looked up by Privy id
 * (this route does not run the user sync); the GitHub token is the user's
 * own, else one of two server-wide ones; GitHub is asked for one page of
 * issues (an oracle here), which is then filtered by label and cut to the
 * requested page size.
 */
module UserIssues {
  import opened Wrappers
  import opened JsValues
  import opened Strings
  import opened Store
  import opened Privy
  import opened Auth
  import opened Listing

  /** A label as GitHub returns it: a bare name or an object whose name
      may be missing. */
  datatype Label = Text(text: string) | Record(name: Option<string>)

  /** An issue as GitHub returns it; everything but its labels is passed
      through untouched and is represented by its id. */
  datatype Issue = Issue(id: int, labels: seq<Label>)

  /** The request made to GitHub: the token and the query parameters;
      `perPage` is `None` for `NaN`. */
  datatype IssueQuery = IssueQuery(token: string, state: string, sort: string, direction: string, perPage: Option<int>)

  /** GitHub's answer to a request: a page of issues, or `None` when the
      call fails. */
  type GithubApi = IssueQuery -> Option<seq<Issue>>

  /** The response status, the issues returned, and the request sent to
      GitHub, if one was. */
  datatype IssuesResponse = IssuesResponse(status: int, issues: seq<Issue>, sent: Option<IssueQuery>)

  // ---------------------------------------------------------------------
  // The GitHub token

  /** A value that is present and not empty. */
  predicate Nonempty(o: Option<string>) {
    o.Some? && o.value != ""
  }

  /** `findFirst({ where: { userId, provider: "github" } })`: the first
      such account in the table's row order `order`. */
  function GithubAccountOf(st: DbState, order: seq<(string, string)>, uid: Id): (a: Option<Account>)
    requires forall i :: 0 <= i < |order| ==> order[i] in st.accounts
    ensures a.Some? ==> a.value.userId == uid && a.value.provider == "github"
    ensures a.Some? <==> exists i :: 0 <= i < |order| && IsGithubOf(st.accounts[order[i]], uid)
    ensures a.Some? ==> exists i :: 0 <= i < |order| && st.accounts[order[i]] == a.value
                          && forall j :: 0 <= j < i ==> !IsGithubOf(st.accounts[order[j]], uid)
  {
    if order == [] then None
    else if IsGithubOf(st.accounts[order[0]], uid) then Some(st.accounts[order[0]])
    else
      var rest := GithubAccountOf(st, order[1..], uid);
      assert forall i :: 1 <= i < |order| ==> order[i] == order[1..][i - 1];
      rest
  }

  predicate IsGithubOf(a: Account, uid: Id) {
    a.userId == uid && a.provider == "github"
  }

  /** `account?.access_token || GITHUB_ACCESS_TOKEN || GITHUB_TOKEN`: the
      first of the three that is present and not empty. */
  function PickToken(account: Option<string>, envAccess: Option<string>, envToken: Option<string>): (t: Option<string>)
    ensures t == (if Nonempty(account) then account
                  else if Nonempty(envAccess) then envAccess
                  else if Nonempty(envToken) then envToken
                  else None)
  {
    var v := Or(OfOption(account), Or(OfOption(envAccess), OfOption(envToken)));
    if Truthy(v) then Some(v.s) else None
  }

  // ---------------------------------------------------------------------
  // Label filter and truncation

  function LabelName(l: Label): Option<string> {
    match l
    case Text(t) => Some(t)
    case Record(n) => n
  }

  /** `labels.split(",").map(l => l.trim().toLowerCase())`. */
  function WantedLabels(labels: string): (wanted: seq<string>)
    ensures |wanted| == |Split(labels, ',')|
    ensures forall i :: 0 <= i < |wanted| ==> wanted[i] == ToLower(Trim(Split(labels, ',')[i]))
  {
    var parts := Split(labels, ',');
    seq(|parts|, i requires 0 <= i < |parts| => ToLower(Trim(parts[i])))
  }

  /** A label with a non-empty name whose lower-cased name is wanted. */
  predicate LabelMatches(l: Label, wanted: seq<string>) {
    var n := LabelName(l);
    n.Some? && n.value != "" && ToLower(n.value) in wanted
  }

  predicate HasWantedLabel(issue: Issue, wanted: seq<string>) {
    exists i :: 0 <= i < |issue.labels| && LabelMatches(issue.labels[i], wanted)
  }

  function LabelFilter(wanted: seq<string>): Issue -> bool {
    (issue: Issue) => HasWantedLabel(issue, wanted)
  }

  /** `xs.slice(0, n)`: `NaN` reads as 0, and a negative end counts from
      the end of the list. */
  function SliceTo<T>(xs: seq<T>, n: Option<int>): (r: seq<T>)
    ensures r <= xs
    ensures n.None? ==> r == []
    ensures n.Some? && n.value >= 0 ==> |r| == Min(n.value, |xs|)
    ensures n.Some? && n.value < 0 ==> |r| == Max(|xs| + n.value, 0)
  {
    if n.None? then []
    else if n.value >= 0 then xs[..Min(n.value, |xs|)]
    else xs[..Max(|xs| + n.value, 0)]
  }

  // ---------------------------------------------------------------------
  // The route

  /** The query sent to GitHub: the parameters with their defaults, and a
      page size of at most 100 (`Math.min` of `NaN` is `NaN`). */
  function BuildQuery(token: string, state: Option<string>, sort: Option<string>, direction: Option<string>,
                      perPage: Option<int>): IssueQuery {
    IssueQuery(token, ParamOr(state, "open"), ParamOr(sort, "updated"), ParamOr(direction, "desc"),
               if perPage.None? then None else Some(Min(perPage.value, 100)))
  }

  /** What GitHub returned, after the label filter (only when `labels` is
      a non-empty string) and the cut to `per_page`. */
  function Shown(fetched: seq<Issue>, labels: Option<string>, perPage: Option<int>): seq<Issue> {
    var kept := if Nonempty(labels) then Filter(fetched, LabelFilter(WantedLabels(labels.value))) else fetched;
    SliceTo(kept, perPage)
  }

  /** The route once the caller's user row `uid` is known and `per_page`
      has been read as `size`: an empty 200 when there is no GitHub token;
      500 when GitHub fails; else the filtered issues. */
  function IssuesFor(st: DbState, accountOrder: seq<(string, string)>, uid: Id,
                     state: Option<string>, sort: Option<string>, direction: Option<string>,
                     labels: Option<string>, size: Option<int>,
                     envAccess: Option<string>, envToken: Option<string>, github: GithubApi): IssuesResponse
    requires Enumerates(accountOrder, st.accounts.Keys)
  {
    var account := GithubAccountOf(st, accountOrder, uid);
    var token := PickToken(if account.Some? then Some(account.value.accessToken) else None, envAccess, envToken);
    IssuesWith(token, state, sort, direction, labels, size, github)
  }

  /** The route once the GitHub token is chosen. */
  function IssuesWith(token: Option<string>, state: Option<string>, sort: Option<string>, direction: Option<string>,
                      labels: Option<string>, size: Option<int>, github: GithubApi): IssuesResponse
  {
    if token.None? then IssuesResponse(200, [], None)
    else
      var q := BuildQuery(token.value, state, sort, direction, size);
      match github(q)
      case None => IssuesResponse(500, [], Some(q))
      case Some(fetched) => IssuesResponse(200, Shown(fetched, labels, size), Some(q))
  }

  /** `parseInt(per_page || "30")`. */
  function PageSize(perPage: Option<string>): Option<int> {
    ParseIntString(ParamOr(perPage, "30"))
  }

  /** 401 without a Bearer token or when it does not verify; 404 when no
      user row holds the verified Privy id; then the lookup for that
      user. */
  function UserIssuesSpec(st: DbState, accountOrder: seq<(string, string)>, oracle: Oracle, header: Option<string>,
                          state: Option<string>, sort: Option<string>, direction: Option<string>,
                          labels: Option<string>, perPage: Option<string>,
                          envAccess: Option<string>, envToken: Option<string>, github: GithubApi): IssuesResponse
    requires Valid(st)
    requires Enumerates(accountOrder, st.accounts.Keys)
  {
    match BearerToken(header)
    case None => IssuesResponse(401, [], None)
    case Some(bearer) =>
      match oracle(bearer)
      case None => IssuesResponse(401, [], None)
      case Some(pu) =>
        if !HasPrivyUser(st, pu.id) then IssuesResponse(404, [], None)
        else IssuesFor(st, accountOrder, SyncedId(st, pu.id), state, sort, direction, labels, PageSize(perPage),
                       envAccess, envToken, github)
  }

  // ---------------------------------------------------------------------
  // Properties

  /** The guards, in order: no Bearer token or an unverified one is a 401,
      a verified identity with no user row a 404, and no GitHub token an
      empty 200; none of these asks GitHub anything. */
  lemma UserIssuesGuards(st: DbState, accountOrder: seq<(string, string)>, oracle: Oracle, header: Option<string>,
                         state: Option<string>, sort: Option<string>, direction: Option<string>,
                         labels: Option<string>, perPage: Option<string>,
                         envAccess: Option<string>, envToken: Option<string>, github: GithubApi)
    requires Valid(st)
    requires Enumerates(accountOrder, st.accounts.Keys)
    ensures var r := UserIssuesSpec(st, accountOrder, oracle, header, state, sort, direction, labels, perPage,
                                    envAccess, envToken, github);
      && r.status in {200, 401, 404, 500}
      && (r.status == 401 <==> BearerToken(header).None? || oracle(BearerToken(header).value).None?)
      && (r.status == 404 <==>
            && BearerToken(header).Some? && oracle(BearerToken(header).value).Some?
            && !HasPrivyUser(st, oracle(BearerToken(header).value).value.id))
      && (r.status in {401, 404} ==> r.issues == [] && r.sent.None?)
      && (BearerToken(header).Some? && oracle(BearerToken(header).value).Some?
          && HasPrivyUser(st, oracle(BearerToken(header).value).value.id) ==>
            var uid := SyncedId(st, oracle(BearerToken(header).value).value.id);
            && uid in st.users && st.users[uid].privyId == oracle(BearerToken(header).value).value.id
            && r == IssuesFor(st, accountOrder, uid, state, sort, direction, labels, PageSize(perPage),
                              envAccess, envToken, github))
  {
    var r := UserIssuesSpec(st, accountOrder, oracle, header, state, sort, direction, labels, perPage,
                            envAccess, envToken, github);
    if BearerToken(header).Some? && oracle(BearerToken(header).value).Some? {
      var pu := oracle(BearerToken(header).value).value;
      if HasPrivyUser(st, pu.id) {
        var uid := SyncedId(st, pu.id);
        var rest := IssuesFor(st, accountOrder, uid, state, sort, direction, labels, PageSize(perPage),
                              envAccess, envToken, github);
        IssuesForQuery(st, accountOrder, uid, state, sort, direction, labels, PageSize(perPage),
                       envAccess, envToken, github);
        assert r == rest;
      }
    }
  }

  /** Without `per_page` the page size is 30. */
  lemma DefaultPageSize()
    ensures PageSize(None) == Some(30)
  {
    assert DecimalDigit(3) == '3' && DecimalDigit(0) == '0';
    assert DecimalString(30) == DecimalString(3) + [DecimalDigit(0)];
    assert NumberToString(30) == "30";
    ParseIntNumber(30);
    assert ParseInt(Num(30)) == ParseIntString("30");
  }

  /** For a known user: no GitHub token at all is an empty 200 that asks
      GitHub nothing; otherwise GitHub receives the caller's own token
      when they have a GitHub account with one, else the first server
      token set, with the documented defaults and a page size of `size`
      capped at 100; a failed call is a 500. */
  lemma IssuesForQuery(st: DbState, accountOrder: seq<(string, string)>, uid: Id,
                       state: Option<string>, sort: Option<string>, direction: Option<string>,
                       labels: Option<string>, size: Option<int>,
                       envAccess: Option<string>, envToken: Option<string>, github: GithubApi)
    requires Enumerates(accountOrder, st.accounts.Keys)
    ensures var r := IssuesFor(st, accountOrder, uid, state, sort, direction, labels, size,
                               envAccess, envToken, github);
      var account := GithubAccountOf(st, accountOrder, uid);
      var own := if account.Some? then Some(account.value.accessToken) else None;
      && r.status in {200, 500}
      && (r.sent.None? <==> PickToken(own, envAccess, envToken).None?)
      && (r.sent.None? ==> r == IssuesResponse(200, [], None))
      && (r.status == 500 <==> r.sent.Some? && github(r.sent.value).None?)
      && (r.status == 500 ==> r.issues == [])
      && (r.sent.Some? ==>
            var q := r.sent.value;
            && Some(q.token) == PickToken(own, envAccess, envToken)
            && (state.None? ==> q.state == "open")
            && (sort.None? ==> q.sort == "updated")
            && (direction.None? ==> q.direction == "desc")
            && (q.perPage.None? <==> size.None?)
            && (q.perPage.Some? ==> q.perPage.value <= 100 && (size.value <= 100 ==> q.perPage.value == size.value))
            && (github(q).Some? ==> r.issues == Shown(github(q).value, labels, size)))
  {
    var account := GithubAccountOf(st, accountOrder, uid);
    var token := PickToken(if account.Some? then Some(account.value.accessToken) else None, envAccess, envToken);
    IssuesWithQuery(token, state, sort, direction, labels, size, github);
  }

  /** The account lookup searches the whole table: with `accountOrder`
      listing every account, an account is found exactly when the user has
      a stored GitHub account. */
  lemma GithubAccountFound(st: DbState, accountOrder: seq<(string, string)>, uid: Id)
    requires Enumerates(accountOrder, st.accounts.Keys)
    ensures GithubAccountOf(st, accountOrder, uid).Some? <==>
              exists key :: key in st.accounts && IsGithubOf(st.accounts[key], uid)
  {
    if key :| key in st.accounts && IsGithubOf(st.accounts[key], uid) {
      var i :| 0 <= i < |accountOrder| && accountOrder[i] == key;
      assert IsGithubOf(st.accounts[accountOrder[i]], uid);
    }
  }

  /** `IssuesForQuery` for a chosen token. */
  lemma IssuesWithQuery(token: Option<string>, state: Option<string>, sort: Option<string>, direction: Option<string>,
                        labels: Option<string>, size: Option<int>, github: GithubApi)
    ensures var r := IssuesWith(token, state, sort, direction, labels, size, github);
      && r.status in {200, 500}
      && (r.sent.None? <==> token.None?)
      && (r.sent.None? ==> r == IssuesResponse(200, [], None))
      && (r.status == 500 <==> r.sent.Some? && github(r.sent.value).None?)
      && (r.status == 500 ==> r.issues == [])
      && (r.sent.Some? ==>
            var q := r.sent.value;
            && Some(q.token) == token
            && (state.None? ==> q.state == "open")
            && (sort.None? ==> q.sort == "updated")
            && (direction.None? ==> q.direction == "desc")
            && (q.perPage.None? <==> size.None?)
            && (q.perPage.Some? ==> q.perPage.value <= 100 && (size.value <= 100 ==> q.perPage.value == size.value))
            && (github(q).Some? ==> r.issues == Shown(github(q).value, labels, size)))
  {
    if token.Some? {
      BuildQueryFields(token.value, state, sort, direction, size);
    }
  }

  /** The query carries the token, the documented defaults, and the page
      size capped at 100. */
  lemma BuildQueryFields(token: string, state: Option<string>, sort: Option<string>, direction: Option<string>,
                         size: Option<int>)
    ensures var q := BuildQuery(token, state, sort, direction, size);
      && q.token == token
      && (state.None? ==> q.state == "open")
      && (sort.None? ==> q.sort == "updated")
      && (direction.None? ==> q.direction == "desc")
      && (q.perPage.None? <==> size.None?)
      && (q.perPage.Some? ==> q.perPage.value <= 100 && (size.value <= 100 ==> q.perPage.value == size.value))
  {
  }

  /** The issues returned are issues GitHub sent, in GitHub's order and at
      most `per_page` of them; with `labels`, each one carries a wanted
      label, and when the page is large enough every issue that does is
      there; without `labels` they are GitHub's first issues as sent. */
  lemma UserIssuesShown(fetched: seq<Issue>, labels: Option<string>, perPage: Option<int>)
    ensures var r := Shown(fetched, labels, perPage);
      && (forall x :: x in r ==> x in fetched)
      && (perPage.Some? && perPage.value >= 0 ==> |r| <= perPage.value)
      && (perPage.None? ==> r == [])
      && (!Nonempty(labels) ==> r <= fetched)
      && (Nonempty(labels) ==>
            && r <= Filter(fetched, LabelFilter(WantedLabels(labels.value)))
            && (forall x :: x in r ==> HasWantedLabel(x, WantedLabels(labels.value)))
            && (perPage.Some? && perPage.value >= |fetched| ==>
                  forall x :: x in fetched && HasWantedLabel(x, WantedLabels(labels.value)) ==> x in r))
  {
    var r := Shown(fetched, labels, perPage);
    if Nonempty(labels) {
      var wanted := WantedLabels(labels.value);
      var kept := Filter(fetched, LabelFilter(wanted));
      assert r == SliceTo(kept, perPage);
      PrefixMembers(r, kept);
      forall x | x in r ensures x in fetched && HasWantedLabel(x, wanted) {
        var i :| 0 <= i < |kept| && kept[i] == x;
        assert LabelFilter(wanted)(kept[i]);
      }
      if perPage.Some? && perPage.value >= |fetched| {
        assert r == kept;
        forall x | x in fetched && HasWantedLabel(x, wanted) ensures x in r {
          assert LabelFilter(wanted)(x);
        }
      }
    } else {
      assert r == SliceTo(fetched, perPage);
      PrefixMembers(r, fetched);
    }
  }

  /** What a prefix holds, the whole holds. */
  lemma PrefixMembers<T>(r: seq<T>, xs: seq<T>)
    requires r <= xs
    ensures forall x :: x in r ==> x in xs
  {
    forall x | x in r ensures x in xs {
      var i :| 0 <= i < |r| && r[i] == x;
      assert xs[i] == x;
    }
  }

  /** A label matches when its name is not empty and, lower-cased, equals
      one of the comma-separated parts of `labels`, trimmed and
      lower-cased. */
  lemma LabelMatchesParts(l: Label, labels: string)
    ensures LabelMatches(l, WantedLabels(labels)) <==>
      && LabelName(l).Some? && LabelName(l).value != ""
      && exists i :: 0 <= i < |Split(labels, ',')| && ToLower(Trim(Split(labels, ',')[i])) == ToLower(LabelName(l).value)
  {
    var wanted := WantedLabels(labels);
    if LabelName(l).Some? {
      var x := ToLower(LabelName(l).value);
      if x in wanted {
        var i :| 0 <= i < |wanted| && wanted[i] == x;
        assert ToLower(Trim(Split(labels, ',')[i])) == x;
      }
      if i :| 0 <= i < |Split(labels, ',')| && ToLower(Trim(Split(labels, ',')[i])) == x {
        assert wanted[i] == x;
      }
    }
  }

  /** The label filter keeps GitHub's order: filtering a list split in two
      is filtering each half. */
  lemma LabelFilterOrder(front: seq<Issue>, back: seq<Issue>, labels: string)
    ensures Filter(front + back, LabelFilter(WantedLabels(labels)))
         == Filter(front, LabelFilter(WantedLabels(labels))) + Filter(back, LabelFilter(WantedLabels(labels)))
  {
    FilterAppend(front, back, LabelFilter(WantedLabels(labels)));
  }
}
