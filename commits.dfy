/**
 * The dashboard's commit chart (`fetchCommitsData`): the commits of the
 * selected project are counted per calendar day of their author date, in
 * a dictionary filled by one pass over the commits, and the dictionary's
 * entries become the chart's points; the totals are the number of
 * commits fetched, dated or not.
 */
module Dashboard {
  import opened Wrappers
  import opened Listing

  /** A commit as GitHub returns it, reduced to `commit.author.date`
      (absent anywhere along the optional chain is `None`). */
  datatype Commit = Commit(authorDate: Option<string>)

  /** `new Date(d).toISOString().split("T")[0]`: the `YYYY-MM-DD` day of a
      date string, or `None` when the date is invalid and `toISOString`
      throws. Date parsing is not modelled; it is this parameter. */
  type DayOf = string -> Option<string>

  /** One point of the chart: a day and the number of commits on it. */
  datatype CommitData = CommitData(day: string, count: int)

  datatype DashboardData = DashboardData(commitData: seq<CommitData>, totalCommits: int, tokensHeld: int)

  /** The result of the `catch` branch. */
  const Empty := DashboardData([], 0, 0)

  /** `commit.commit?.author?.date` is truthy: present and not empty. */
  predicate IsDated(c: Commit) {
    c.authorDate.Some? && c.authorDate.value != ""
  }

  // ---------------------------------------------------------------------
  // Specification

  /** The day keys of the dated commits, in order; `None` as soon as one
      dated commit has an invalid date. */
  function DayKeys(commits: seq<Commit>, dayOf: DayOf): Option<seq<string>>
  {
    if commits == [] then Some([])
    else
      var keys := DayKeys(commits[..|commits| - 1], dayOf);
      var c := commits[|commits| - 1];
      if !IsDated(c) then keys
      else match dayOf(c.authorDate.value)
        case None => None
        case Some(k) => if keys.None? then None else Some(keys.value + [k])
  }

  /** The distinct keys in the order of their first occurrence: the order
      of `Object.entries` on a dictionary whose keys are ISO days, which
      are never array indices. */
  function FirstSeen(keys: seq<string>): (d: seq<string>)
    ensures Distinct(d)
    ensures forall k :: k in d <==> k in keys
  {
    if keys == [] then []
    else
      var front := keys[..|keys| - 1];
      var last := keys[|keys| - 1];
      assert keys == front + [last];
      var d := FirstSeen(front);
      if last in d then d else d + [last]
  }

  /** The chart points for a list of day keys: one per distinct key, with
      the number of times it occurs. */
  function Tally(keys: seq<string>): seq<CommitData>
  {
    var d := FirstSeen(keys);
    seq(|d|, i requires 0 <= i < |d| => CommitData(d[i], multiset(keys)[d[i]]))
  }

  /** What `fetchCommitsData` returns; `fetched` is `getCommits`'s result,
      `None` when it throws. */
  function CommitsDashboard(fetched: Option<seq<Commit>>, dayOf: DayOf): DashboardData
  {
    if fetched.None? then Empty
    else match DayKeys(fetched.value, dayOf)
      case None => Empty
      case Some(keys) => DashboardData(Tally(keys), |fetched.value|, |fetched.value|)
  }

  /** The sum of the counts of a list of points. */
  function TotalCount(data: seq<CommitData>): int
  {
    if data == [] then 0 else TotalCount(data[..|data| - 1]) + data[|data| - 1].count
  }

  // ---------------------------------------------------------------------
  // The counting pass

  /** `fetchCommitsData`: one pass fills `counts`, a dictionary whose key
      order is `order`; a day already counted (truthy) is incremented,
      any other is set to 1. */
  method FetchCommitsData(fetched: Option<seq<Commit>>, dayOf: DayOf) returns (r: DashboardData)
    ensures r == CommitsDashboard(fetched, dayOf)
  {
    if fetched.None? {
      return Empty;
    }
    var commits := fetched.value;
    var order: seq<string> := [];
    var counts: map<string, int> := map[];
    ghost var keys: seq<string> := [];
    var i := 0;
    while i < |commits|
      invariant 0 <= i <= |commits|
      invariant DayKeys(commits[..i], dayOf) == Some(keys)
      invariant Tallied(keys, order, counts)
    {
      var c := commits[i];
      DayKeysStep(commits, i, dayOf);
      if IsDated(c) {
        var day := dayOf(c.authorDate.value);
        if day.None? {
          DayKeysFailureSticks(commits[..i + 1], commits[i + 1..], dayOf);
          assert commits[..i + 1] + commits[i + 1..] == commits;
          return Empty;
        }
        var k := day.value;
        order, counts := CountDay(order, counts, keys, k);
        keys := keys + [k];
      }
      i := i + 1;
    }
    assert commits[..i] == commits;
    var data := seq(|order|, j requires 0 <= j < |order| => CommitData(order[j], counts[order[j]]));
    TallyOfCounts(keys, order, counts);
    return DashboardData(data, |commits|, |commits|);
  }

  /** The dictionary after the keys `keys`: its key order is their
      first-occurrence order and it maps each to its number of
      occurrences. */
  ghost predicate Tallied(keys: seq<string>, order: seq<string>, counts: map<string, int>) {
    && order == FirstSeen(keys)
    && (forall k :: k in counts <==> k in order)
    && (forall k :: k in counts ==> counts[k] == multiset(keys)[k])
  }

  /** One step of the pass: a day already counted (truthy) is incremented,
      any other is set to 1 and, when new, appended to the key order. */
  method CountDay(order: seq<string>, counts: map<string, int>, ghost keys: seq<string>, k: string)
    returns (order': seq<string>, counts': map<string, int>)
    requires Tallied(keys, order, counts)
    ensures Tallied(keys + [k], order', counts')
  {
    FirstSeenStep(keys, k);
    assert multiset(keys + [k]) == multiset(keys) + multiset{k};
    if k in counts {
      assert k in keys;
    }
    order' := order;
    if k in counts && counts[k] != 0 {
      counts' := counts[k := counts[k] + 1];
    } else {
      if k !in counts {
        order' := order + [k];
      }
      counts' := counts[k := 1];
    }
  }

  /** The dictionary the pass fills, read in its key order, is the tally. */
  lemma TallyOfCounts(keys: seq<string>, order: seq<string>, counts: map<string, int>)
    requires Tallied(keys, order, counts)
    ensures seq(|order|, j requires 0 <= j < |order| => CommitData(order[j], counts[order[j]])) == Tally(keys)
  {
  }

  /** The day keys of one more commit. */
  lemma DayKeysStep(commits: seq<Commit>, i: nat, dayOf: DayOf)
    requires i < |commits|
    ensures var c := commits[i];
      DayKeys(commits[..i + 1], dayOf)
        == if !IsDated(c) then DayKeys(commits[..i], dayOf)
           else match dayOf(c.authorDate.value)
             case None => None
             case Some(k) => if DayKeys(commits[..i], dayOf).None? then None
                             else Some(DayKeys(commits[..i], dayOf).value + [k])
  {
    assert commits[..i + 1][..i] == commits[..i];
  }

  /** The distinct keys of one more key. */
  lemma FirstSeenStep(keys: seq<string>, k: string)
    ensures FirstSeen(keys + [k]) == if k in FirstSeen(keys) then FirstSeen(keys) else FirstSeen(keys) + [k]
  {
    assert (keys + [k])[..|keys|] == keys;
  }

  /** Once a date is invalid, no later commit brings the pass back. */
  lemma {:induction false} DayKeysFailureSticks(front: seq<Commit>, back: seq<Commit>, dayOf: DayOf)
    requires DayKeys(front, dayOf).None?
    ensures DayKeys(front + back, dayOf).None?
  {
    if back == [] {
      assert front + back == front;
    } else {
      var b := back[..|back| - 1];
      DayKeysFailureSticks(front, b, dayOf);
      assert (front + back)[..|front + back| - 1] == front + b;
    }
  }

  // ---------------------------------------------------------------------
  // Properties

  /** The day keys are those of the dated commits: one per dated commit,
      and a commit without a date adds none. */
  lemma {:induction false} DayKeysDated(commits: seq<Commit>, dayOf: DayOf)
    ensures DayKeys(commits, dayOf).Some? ==> |DayKeys(commits, dayOf).value| == |Filter(commits, IsDated)|
  {
    if commits != [] {
      var front := commits[..|commits| - 1];
      var last := commits[|commits| - 1];
      DayKeysDated(front, dayOf);
      assert commits == front + [last];
      FilterAppend(front, [last], IsDated);
      if DayKeys(commits, dayOf).Some? && IsDated(last) {
        assert DayKeys(front, dayOf).Some?;
      }
    }
  }

  /** Each point is a distinct day that occurs among the keys, counted as
      often as it occurs, so at least once; every key has its point. */
  lemma TallyEntries(keys: seq<string>)
    ensures var data := Tally(keys);
      && (forall i, j :: 0 <= i < j < |data| ==> data[i].day != data[j].day)
      && (forall i :: 0 <= i < |data| ==> data[i].day in keys && data[i].count == multiset(keys)[data[i].day] >= 1)
      && (forall k :: k in keys ==> exists i :: 0 <= i < |data| && data[i].day == k)
  {
    var d := FirstSeen(keys);
    var data := Tally(keys);
    assert |data| == |d|;
    forall i | 0 <= i < |data|
      ensures data[i].day == d[i] && data[i].day in keys && data[i].count == multiset(keys)[data[i].day] >= 1
    {
      assert data[i] == CommitData(d[i], multiset(keys)[d[i]]);
      assert d[i] in d;
      assert d[i] in multiset(keys);
    }
    forall k | k in keys ensures exists i :: 0 <= i < |data| && data[i].day == k {
      assert k in d;
      var i :| 0 <= i < |d| && d[i] == k;
      assert data[i].day == k;
    }
  }

  /** `SumOf(d, m)`: the multiplicities in `m` of the keys `d`. */
  function SumOf(d: seq<string>, m: multiset<string>): int
  {
    if d == [] then 0 else SumOf(d[..|d| - 1], m) + m[d[|d| - 1]]
  }

  lemma {:induction false} SumOfAdd(d: seq<string>, m: multiset<string>, k: string)
    requires Distinct(d)
    ensures SumOf(d, m + multiset{k}) == SumOf(d, m) + (if k in d then 1 else 0)
  {
    if d != [] {
      var front := d[..|d| - 1];
      assert d == front + [d[|d| - 1]];
      SumOfAdd(front, m, k);
    }
  }

  lemma {:induction false} TotalCountOf(d: seq<string>, m: multiset<string>)
    ensures TotalCount(seq(|d|, i requires 0 <= i < |d| => CommitData(d[i], m[d[i]]))) == SumOf(d, m)
  {
    if d != [] {
      var front := d[..|d| - 1];
      var data := seq(|d|, i requires 0 <= i < |d| => CommitData(d[i], m[d[i]]));
      TotalCountOf(front, m);
      assert data[..|data| - 1] == seq(|front|, i requires 0 <= i < |front| => CommitData(front[i], m[front[i]]));
    }
  }

  lemma {:induction false} SumFirstSeen(keys: seq<string>)
    ensures SumOf(FirstSeen(keys), multiset(keys)) == |keys|
  {
    if keys != [] {
      var front := keys[..|keys| - 1];
      var last := keys[|keys| - 1];
      assert keys == front + [last];
      SumFirstSeen(front);
      SumOfAdd(FirstSeen(front), multiset(front), last);
      if last !in front {
        var d := FirstSeen(front) + [last];
        assert d[..|d| - 1] == FirstSeen(front);
      }
    }
  }

  /** The counts add up to the number of keys. */
  lemma TallyTotal(keys: seq<string>)
    ensures TotalCount(Tally(keys)) == |keys|
  {
    TotalCountOf(FirstSeen(keys), multiset(keys));
    SumFirstSeen(keys);
  }

  /** `fetchCommitsData`'s result: when the commits were fetched and every
      dated one has a valid date, one point per distinct day, the counts
      adding up to the number of dated commits, and both totals equal to
      the number of commits, undated ones included; otherwise no points
      and both totals 0. */
  lemma CommitsDashboardTotals(fetched: Option<seq<Commit>>, dayOf: DayOf)
    ensures var r := CommitsDashboard(fetched, dayOf);
      && (fetched.None? || DayKeys(fetched.value, dayOf).None? ==> r == DashboardData([], 0, 0))
      && (fetched.Some? && DayKeys(fetched.value, dayOf).Some? ==>
            && r.totalCommits == |fetched.value| && r.tokensHeld == |fetched.value|
            && TotalCount(r.commitData) == |Filter(fetched.value, IsDated)|
            && (forall i, j :: 0 <= i < j < |r.commitData| ==> r.commitData[i].day != r.commitData[j].day)
            && (forall i :: 0 <= i < |r.commitData| ==> r.commitData[i].count >= 1))
  {
    if fetched.Some? && DayKeys(fetched.value, dayOf).Some? {
      var keys := DayKeys(fetched.value, dayOf).value;
      DayKeysDated(fetched.value, dayOf);
      TallyTotal(keys);
      TallyEntries(keys);
    }
  }

  /** A commit without an author date changes neither the points nor
      whether the pass fails; it only adds to the totals. */
  lemma UndatedNotCounted(commits: seq<Commit>, c: Commit, dayOf: DayOf)
    requires !IsDated(c)
    ensures DayKeys(commits + [c], dayOf) == DayKeys(commits, dayOf)
    ensures CommitsDashboard(Some(commits + [c]), dayOf).commitData == CommitsDashboard(Some(commits), dayOf).commitData
  {
    assert (commits + [c])[..|commits|] == commits;
  }
}
