/**
 * `/api/projects`: the project directory. GET lists projects with an
 * optional case-insensitive search and approval filter, ordered approved
 * first, then by votes, then newest, one page at a time with the page
 * count; POST registers a project from its GitHub URL, whose owner and
 * repository are read off the URL, once per URL. The POST is gated by the
 * session of the site's own sign-in (a parameter here), not by the Bearer
 * authentication of the bounty routes.
 */
module ProjectRoutes {
  import opened Wrappers
  import opened JsValues
  import opened Strings
  import opened Store
  import opened Listing

  // ---------------------------------------------------------------------
  // The GitHub URL pattern ^https://github\.com/([^/]+)/([^/]+)(?:/.*)?$

  const GithubPrefix: string := "https://github.com/"

  /** A capture group `([^/]+)`: at least one character, no slash. */
  predicate IsSegment(s: string) {
    s != [] && '/' !in s
  }

  /** What may follow the two groups, `(?:/.*)?$`: nothing, or a slash and
      then characters that `.` matches (no line terminator). */
  predicate IsRepoPath(tail: string) {
    tail == [] || (tail[0] == '/' && forall k :: 1 <= k < |tail| ==> !IsLineTerminator(tail[k]))
  }

  /** The longest prefix of `s` without a slash. */
  function UpToSlash(s: string): (r: string)
    ensures |r| <= |s| && r == s[..|r|]
    ensures '/' !in r
    ensures |r| < |s| ==> s[|r|] == '/'
  {
    if s == [] || s[0] == '/' then [] else [s[0]] + UpToSlash(s[1..])
  }

  /** The slash-free start of a string is read up to the first slash. */
  lemma {:induction false} UpToSlashOf(a: string, b: string)
    requires '/' !in a
    requires b == [] || b[0] == '/'
    ensures UpToSlash(a + b) == a
  {
    if a != [] {
      assert (a + b)[1..] == a[1..] + b;
      UpToSlashOf(a[1..], b);
    }
  }

  /** `githubUrl.match(pattern)`: the two groups, owner and repository, or
      `None` when the URL does not match. A group cannot end early, since
      what follows it must be a slash or the end, so each group is a whole
      path segment. */
  function ParseGithubUrl(url: string): (r: Option<(string, string)>)
    ensures r.Some? ==>
      && IsSegment(r.value.0) && IsSegment(r.value.1)
      && GithubPrefix + r.value.0 + "/" + r.value.1 <= url
      && IsRepoPath(url[|GithubPrefix + r.value.0 + "/" + r.value.1|..])
  {
    if !StartsWith(url, GithubPrefix) then None
    else
      var r := ParseOwnerRepo(url[|GithubPrefix|..]);
      if r.None? then None
      else
        assert url == GithubPrefix + url[|GithubPrefix|..];
        assert GithubPrefix + r.value.0 + "/" + r.value.1 == GithubPrefix + (r.value.0 + "/" + r.value.1);
        r
  }

  /** The two groups after the `https://github.com/` prefix. */
  function ParseOwnerRepo(rest: string): (r: Option<(string, string)>)
    ensures r.Some? ==>
      && IsSegment(r.value.0) && IsSegment(r.value.1)
      && r.value.0 + "/" + r.value.1 <= rest
      && IsRepoPath(rest[|r.value.0 + "/" + r.value.1|..])
  {
    var owner := UpToSlash(rest);
    if owner == [] || |owner| == |rest| then None
    else
      var after := rest[|owner| + 1..];
      var repo := UpToSlash(after);
      var tail := after[|repo|..];
      if repo == [] || !IsRepoPath(tail) then None
      else
        assert rest == owner + "/" + after;
        assert after == repo + tail;
        assert rest == owner + "/" + repo + tail;
        Some((owner, repo))
  }

  /** Every path the pattern accepts after the prefix is parsed into the
      two groups it matched. */
  lemma ParseOwnerRepoComplete(owner: string, repo: string, tail: string)
    requires IsSegment(owner) && IsSegment(repo) && IsRepoPath(tail)
    ensures ParseOwnerRepo(owner + "/" + repo + tail) == Some((owner, repo))
  {
    var rest := owner + "/" + repo + tail;
    UpToSlashOf(owner, "/" + repo + tail);
    assert rest == owner + ("/" + repo + tail);
    assert rest[|owner| + 1..] == repo + tail;
    UpToSlashOf(repo, tail);
    assert (repo + tail)[|repo|..] == tail;
  }

  /** Every URL the pattern accepts is parsed into the two groups it
      matched. */
  lemma ParseGithubUrlComplete(owner: string, repo: string, tail: string)
    requires IsSegment(owner) && IsSegment(repo) && IsRepoPath(tail)
    ensures ParseGithubUrl(GithubPrefix + owner + "/" + repo + tail) == Some((owner, repo))
  {
    var url := GithubPrefix + owner + "/" + repo + tail;
    var rest := owner + "/" + repo + tail;
    assert url == GithubPrefix + rest;
    assert url[..|GithubPrefix|] == GithubPrefix;
    assert url[|GithubPrefix|..] == rest;
    ParseOwnerRepoComplete(owner, repo, tail);
  }

  /** A parse result is a match: the URL is the prefix, the two groups and
      a path the pattern accepts. */
  lemma ParseGithubUrlSound(url: string, owner: string, repo: string)
    requires ParseGithubUrl(url) == Some((owner, repo))
    ensures exists tail :: (IsRepoPath(tail) && IsSegment(owner) && IsSegment(repo)
                            && url == GithubPrefix + owner + "/" + repo + tail)
  {
    var head := GithubPrefix + owner + "/" + repo;
    assert head <= url && IsRepoPath(url[|head|..]);
    var tail := url[|head|..];
    PrefixSplit(head, url);
  }

  /** A prefix and the rest after it make up the whole. */
  lemma PrefixSplit(head: string, s: string)
    requires head <= s
    ensures s == head + s[|head|..]
  {
    assert s[..|head|] == head;
    assert s == s[..|head|] + s[|head|..];
  }

  /** The parse succeeds with (owner, repo) exactly when the URL is the
      GitHub prefix, the two segments and an allowed tail. */
  lemma ParseGithubUrlMatches(url: string, owner: string, repo: string)
    ensures ParseGithubUrl(url) == Some((owner, repo)) <==>
      exists tail :: (IsRepoPath(tail) && IsSegment(owner) && IsSegment(repo)
                      && url == GithubPrefix + owner + "/" + repo + tail)
  {
    if ParseGithubUrl(url) == Some((owner, repo)) {
      ParseGithubUrlSound(url, owner, repo);
    }
    if exists tail :: IsRepoPath(tail) && IsSegment(owner) && IsSegment(repo)
                      && url == GithubPrefix + owner + "/" + repo + tail {
      var tail :| IsRepoPath(tail) && IsSegment(owner) && IsSegment(repo)
                  && url == GithubPrefix + owner + "/" + repo + tail;
      ParseGithubUrlComplete(owner, repo, tail);
    }
  }

  // ---------------------------------------------------------------------
  // GET /api/projects

  /** A search term hits a project whose name, description, owner or
      repository contains it, ignoring case. */
  predicate SearchHit(p: Project, search: string) {
    || ContainsInsensitive(p.name, search) || ContainsInsensitive(p.description, search)
    || ContainsInsensitive(p.owner, search) || ContainsInsensitive(p.repo, search)
  }

  /** `status`: "approved" keeps approved projects, "pending" the others,
      and any other value (or none) keeps all. */
  predicate ApprovalMatches(p: Project, status: Option<string>) {
    if status == Some("approved") then p.isApproved
    else if status == Some("pending") then !p.isApproved
    else true
  }

  /** The `where` of the query: the search applies only when it is a
      non-empty string. */
  predicate Selected(p: Project, search: Option<string>, status: Option<string>) {
    && (search.Some? && search.value != "" ==> SearchHit(p, search.value))
    && ApprovalMatches(p, status)
  }

  function Where(search: Option<string>, status: Option<string>): Project -> bool {
    (p: Project) => Selected(p, search, status)
  }

  /** `orderBy: isApproved desc, voteCount desc, createdAt desc`. */
  predicate ProjectFirst(a: Project, b: Project) {
    if a.isApproved != b.isApproved then a.isApproved
    else if a.voteCount != b.voteCount then a.voteCount > b.voteCount
    else a.createdAt >= b.createdAt
  }

  lemma ProjectFirstTotal()
    ensures TotalPreorder(ProjectFirst)
  {
  }

  /** `Math.ceil(total / limit)` for a non-zero limit: the number of pages
      of `limit` rows that hold `total` rows (for a negative limit, the
      same rounding towards positive infinity). */
  function CeilDiv(total: nat, limit: int): (pages: int)
    requires limit != 0
    ensures limit > 0 ==> pages >= 0 && pages * limit >= total && (pages - 1) * limit < total
    ensures limit < 0 ==> pages * limit <= total < (pages - 1) * limit
  {
    if limit > 0 then
      CeilDivUp(total, limit);
      (total + limit - 1) / limit
    else
      CeilDivDown(total, -limit);
      -(total / -limit)
  }

  /** Rounding up a division by a positive size. */
  lemma CeilDivUp(total: nat, size: int)
    requires size > 0
    ensures var q := (total + size - 1) / size; q >= 0 && q * size >= total && (q - 1) * size < total
  {
    var a := total + size - 1;
    var q := a / size;
    var r := a % size;
    assert q * size + r == a && 0 <= r < size;
    assert (q - 1) * size == q * size - size;
  }

  /** Rounding a division by a negative limit `-size` towards positive
      infinity. */
  lemma CeilDivDown(total: nat, size: int)
    requires size > 0
    ensures var pages := -(total / size); var limit := -size;
      pages * limit <= total < (pages - 1) * limit
  {
    var f := total / size;
    var r := total % size;
    assert f * size + r == total && 0 <= r < size;
    assert (-f) * (-size) == f * size;
    assert (-f - 1) * (-size) == f * size + size;
  }

  /** The `pagination` record: `pages` is `None` where the division by a
      zero limit gives a value JSON writes as `null`. */
  datatype Pagination = Pagination(page: int, limit: int, total: nat, pages: Option<int>)

  datatype ProjectList = ProjectList(status: int, projects: seq<Project>, pagination: Option<Pagination>)

  /** The two database calls for a page number and a page size that are
      numbers: a negative skip `(page - 1) * limit` makes the call fail
      (500); otherwise the page of matching projects, their total and the
      page count. `order` is the table's row order, which the sort keeps
      among ties. */
  function ProjectQuery(st: DbState, order: seq<Id>, search: Option<string>, status: Option<string>,
                        page: int, limit: int): ProjectList
    requires forall i :: 0 <= i < |order| ==> order[i] in st.projects
  {
    if (page - 1) * limit < 0 then ProjectList(500, [], None)
    else
      var where := Where(search, status);
      var total := Count(st.projects, where);
      var rows := Select(st.projects, order, where, ProjectFirst, (page - 1) * limit, limit);
      var pages := if limit == 0 then None else Some(CeilDiv(total, limit));
      ProjectList(200, rows, Some(Pagination(page, limit, total, pages)))
  }

  /** `page` (default 1) and `limit` (default 10) are read with
      `parseInt`; one that is not a number makes the database call fail
      (500). */
  function ListProjects(st: DbState, order: seq<Id>, search: Option<string>, status: Option<string>,
                        page: Option<string>, limit: Option<string>): ProjectList
    requires forall i :: 0 <= i < |order| ==> order[i] in st.projects
  {
    var pg := ParseIntString(ParamOr(page, "1"));
    var size := ParseIntString(ParamOr(limit, "10"));
    if pg.None? || size.None? then ProjectList(500, [], None)
    else ProjectQuery(st, order, search, status, pg.value, size.value)
  }

  /** The route fails exactly when the page or limit is not a number or
      the skip is negative; otherwise it answers 200, echoes them, and
      runs the query with them. */
  lemma ListProjectsStatus(st: DbState, order: seq<Id>, search: Option<string>, status: Option<string>,
                           page: Option<string>, limit: Option<string>)
    requires forall i :: 0 <= i < |order| ==> order[i] in st.projects
    ensures var r := ListProjects(st, order, search, status, page, limit);
      var pg := ParseIntString(ParamOr(page, "1"));
      var size := ParseIntString(ParamOr(limit, "10"));
      && (r.status == 500 <==> pg.None? || size.None? || (pg.value - 1) * size.value < 0)
      && (r.status == 500 ==> r.projects == [] && r.pagination.None?)
      && (r.status != 500 ==>
            && r.status == 200 && r.pagination.Some?
            && r.pagination.value.page == pg.value && r.pagination.value.limit == size.value
            && r == ProjectQuery(st, order, search, status, pg.value, size.value))
  {
  }

  /** A page holds stored projects that pass the filter, in the route's
      order, and no more than `limit` of them. */
  lemma ProjectQueryRows(st: DbState, order: seq<Id>, search: Option<string>, status: Option<string>,
                         page: int, limit: int)
    requires forall i :: 0 <= i < |order| ==> order[i] in st.projects
    ensures var r := ProjectQuery(st, order, search, status, page, limit);
      r.status == 200 ==>
        && (forall i :: 0 <= i < |r.projects| ==>
              r.projects[i] in st.projects.Values && Selected(r.projects[i], search, status))
        && (forall i, j :: 0 <= i < j < |r.projects| ==> ProjectFirst(r.projects[i], r.projects[j]))
        && (limit >= 0 ==> |r.projects| <= limit)
  {
    var r := ProjectQuery(st, order, search, status, page, limit);
    if r.status == 200 {
      var skip: nat := (page - 1) * limit;
      var where := Where(search, status);
      assert r.projects == Select(st.projects, order, where, ProjectFirst, skip, limit);
      ProjectFirstTotal();
      SelectOutcome(st.projects, order, where, ProjectFirst, skip, limit);
      forall i | 0 <= i < |r.projects| ensures r.projects[i] in st.projects.Values && Selected(r.projects[i], search, status) {
        assert r.projects[i] in r.projects;
      }
    }
  }

  /** Page `page` of size `limit` holds the matching projects, in the
      route's order, from position `(page - 1) * limit` on, up to `limit`
      of them. */
  lemma ProjectPageWindow(st: DbState, order: seq<Id>, search: Option<string>, status: Option<string>,
                          page: int, limit: nat)
    requires forall i :: 0 <= i < |order| ==> order[i] in st.projects
    requires (page - 1) * limit >= 0
    ensures var ranked := SortBy(Filter(Rows(st.projects, order), Where(search, status)), ProjectFirst);
      var r := ProjectQuery(st, order, search, status, page, limit);
      r.status == 200 && IsWindow(r.projects, ranked, (page - 1) * limit, limit)
  {
    ProjectQueryIsSelect(st, order, search, status, page, limit);
    SelectWindow(st.projects, order, Where(search, status), ProjectFirst, (page - 1) * limit, limit);
  }

  lemma ProjectQueryIsSelect(st: DbState, order: seq<Id>, search: Option<string>, status: Option<string>,
                             page: int, limit: int)
    requires forall i :: 0 <= i < |order| ==> order[i] in st.projects
    requires (page - 1) * limit >= 0
    ensures ProjectQuery(st, order, search, status, page, limit).status == 200
    ensures ProjectQuery(st, order, search, status, page, limit).projects
         == Select(st.projects, order, Where(search, status), ProjectFirst, (page - 1) * limit, limit)
  {
  }

  /** The ids of the projects the filter selects. */
  function Matching(st: DbState, search: Option<string>, status: Option<string>): (keys: set<Id>)
    ensures forall k :: k in keys <==> k in st.projects && Selected(st.projects[k], search, status)
  {
    set k | k in st.projects && Selected(st.projects[k], search, status)
  }

  /** The database's count of the filter is the number of matching
      projects. */
  lemma CountSelected(st: DbState, search: Option<string>, status: Option<string>)
    ensures Count(st.projects, Where(search, status)) == |Matching(st, search, status)|
  {
    CountIs(st.projects, Where(search, status), Matching(st, search, status));
  }

  /** `total` counts every matching project the table holds; a page is
      never larger; the first page, when at least as large as the table,
      is all of them; and `pages` is the least number of pages of `limit`
      rows that hold `total` (`null` for a zero limit). */
  lemma ProjectQueryTotal(st: DbState, order: seq<Id>, search: Option<string>, status: Option<string>,
                          page: int, limit: int)
    requires Enumerates(order, st.projects.Keys)
    ensures var r := ProjectQuery(st, order, search, status, page, limit);
      r.status == 200 ==>
        && r.pagination.Some?
        && var pn := r.pagination.value;
        && pn.total == |Matching(st, search, status)|
        && |r.projects| <= pn.total
        && (page == 1 && limit >= |order| ==> |r.projects| == pn.total)
        && (pn.pages.None? <==> limit == 0)
        && (limit > 0 ==> pn.pages.value * limit >= pn.total && (pn.pages.value - 1) * limit < pn.total)
  {
    var r := ProjectQuery(st, order, search, status, page, limit);
    if r.status == 200 {
      var skip: nat := (page - 1) * limit;
      var where := Where(search, status);
      var sorted := SortBy(Filter(Rows(st.projects, order), where), ProjectFirst);
      assert r.projects == Page(sorted, skip, limit);
      FilterRowsCount(st.projects, order, where);
      CountSelected(st, search, status);
      assert |r.projects| <= |sorted|;
      if page == 1 {
        assert skip == 0;
      }
    }
  }

  // ---------------------------------------------------------------------
  // POST /api/projects

  /** The JSON body of a create request, property by property. */
  datatype ProjectBody = ProjectBody(name: Value, description: Value, githubUrl: Value)

  /** A create's response: its status, the row it created, and the
      database after it. */
  datatype Created = Created(status: int, project: Option<Project>, st: DbState)

  /** Some project is registered under exactly this URL text. */
  predicate UrlTaken(st: DbState, url: string) {
    exists k :: k in st.projects && st.projects[k].githubUrl == url
  }

  /** 401 without a signed-in user id; 500 for an unreadable body; 400 for
      a missing field; 500 for a URL that is not a string (it has no
      `match`); 400 for a URL that does not match the pattern; 409 for a
      URL already registered; 500 when the database rejects a name or
      description that is not a string; else 201 and a new, not yet
      approved project with no votes. */
  function CreateProject(st: DbState, session: Option<string>, body: Option<ProjectBody>, now: Time): Created {
    if session.None? || session.value == "" then Created(401, None, st)
    else if body.None? then Created(500, None, st)
    else
      var b := body.value;
      if !Truthy(b.name) || !Truthy(b.description) || !Truthy(b.githubUrl) then Created(400, None, st)
      else if !b.githubUrl.Str? then Created(500, None, st)
      else match ParseGithubUrl(b.githubUrl.s)
        case None => Created(400, None, st)
        case Some(names) =>
          if UrlTaken(st, b.githubUrl.s) then Created(409, None, st)
          else if !b.name.Str? || !b.description.Str? then Created(500, None, st)
          else
            var p := Project(st.nextId, b.name.s, b.description.s, b.githubUrl.s, names.0, names.1, false, 0, now);
            Created(201, Some(p), st.(projects := st.projects[st.nextId := p], nextId := st.nextId + 1))
  }

  method PostProject(db: Db, session: Option<string>, body: Option<ProjectBody>, now: Time)
    returns (status: int, created: Option<Project>)
    modifies db
    ensures Created(status, created, db.State()) == CreateProject(old(db.State()), session, body, now)
  {
    if session.None? || session.value == "" {
      return 401, None;
    }
    if body.None? {
      return 500, None;
    }
    var b := body.value;
    if !Truthy(b.name) || !Truthy(b.description) || !Truthy(b.githubUrl) {
      return 400, None;
    }
    if !b.githubUrl.Str? {
      return 500, None;
    }
    var names := ParseGithubUrl(b.githubUrl.s);
    if names.None? {
      return 400, None;
    }
    if exists k :: k in db.projects && db.projects[k].githubUrl == b.githubUrl.s {
      return 409, None;
    }
    if !b.name.Str? || !b.description.Str? {
      return 500, None;
    }
    var p := Project(db.nextId, b.name.s, b.description.s, b.githubUrl.s, names.value.0, names.value.1, false, 0, now);
    db.projects := db.projects[db.nextId := p];
    db.nextId := db.nextId + 1;
    return 201, Some(p);
  }

  /** Adding a fresh project under an unused URL keeps the invariant. */
  lemma AddProjectValid(st: DbState, p: Project)
    requires Valid(st)
    requires p.id == st.nextId && !UrlTaken(st, p.githubUrl)
    ensures Valid(st.(projects := st.projects[p.id := p], nextId := st.nextId + 1))
  {
    assert forall k :: k in st.projects ==> st.projects[k].githubUrl != p.githubUrl;
    KeepsValidProject(st, p);
  }

  /** A create keeps the invariant. It either adds exactly one project,
      under a URL no project had, with the owner and repository the URL
      names, or changes nothing; each guard gives its own status. */
  lemma CreateProjectOutcome(st: DbState, session: Option<string>, body: Option<ProjectBody>, now: Time)
    requires Valid(st)
    ensures var r := CreateProject(st, session, body, now);
      && Valid(r.st)
      && r.status in {201, 400, 401, 409, 500}
      && (r.status == 201 <==> r.project.Some?)
      && (r.status != 201 ==> r.st == st)
      && (session.None? || session.value == "" ==> r.status == 401)
      && (session.Some? && session.value != "" && body.Some? ==>
            var b := body.value;
            && (!Truthy(b.name) || !Truthy(b.description) || !Truthy(b.githubUrl) ==> r.status == 400)
            && (Truthy(b.name) && Truthy(b.description) && b.githubUrl.Str? && b.githubUrl.s != "" ==>
                  && (ParseGithubUrl(b.githubUrl.s).None? ==> r.status == 400)
                  && (ParseGithubUrl(b.githubUrl.s).Some? ==> (r.status == 409 <==> UrlTaken(st, b.githubUrl.s)))))
      && (r.project.Some? ==>
            var p := r.project.value;
            && body.Some? && body.value.githubUrl == Str(p.githubUrl)
            && body.value.name == Str(p.name) && body.value.description == Str(p.description)
            && ParseGithubUrl(p.githubUrl) == Some((p.owner, p.repo))
            && !p.isApproved && p.voteCount == 0 && p.createdAt == now
            && !UrlTaken(st, p.githubUrl)
            && p.id !in st.projects
            && r.st == st.(projects := st.projects[p.id := p], nextId := st.nextId + 1))
  {
    var r := CreateProject(st, session, body, now);
    if r.project.Some? {
      AddProjectValid(st, r.project.value);
    }
  }

  /** The URL stays unique: repeating a create that succeeded, by any
      signed-in user and at any time, is a 409 that changes nothing. */
  lemma CreateProjectRepeated(st: DbState, session: Option<string>, session2: Option<string>,
                              body: ProjectBody, now: Time, later: Time)
    requires Valid(st)
    requires CreateProject(st, session, Some(body), now).status == 201
    requires session2.Some? && session2.value != ""
    ensures var st1 := CreateProject(st, session, Some(body), now).st;
      CreateProject(st1, session2, Some(body), later) == Created(409, None, st1)
  {
    CreateProjectOutcome(st, session, Some(body), now);
    var r := CreateProject(st, session, Some(body), now);
    var p := r.project.value;
    assert p.id in r.st.projects && r.st.projects[p.id].githubUrl == p.githubUrl;
  }
}
