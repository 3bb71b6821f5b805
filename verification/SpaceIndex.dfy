// The space listing filtered by status (Index and convertReposToSpaces,
// component/space.go). Repositories are listed in raw pages; a repository may have a
// space with a status, and the filter looks through raw pages until it has a page full.
module SpaceIndex {
  import opened Wrappers
  import opened Keyset
  import opened Division

  const MAX_PAGES := 100
  const BATCH := 100

  // A space as listed; its status is what the status check answers.
  datatype Space = Space(repoId: int, status: string)

  function Lookup(table: seq<Space>, id: int): Option<Space> {
    if table == [] then None else if table[0].repoId == id then Some(table[0]) else Lookup(table[1..], id)
  }

  // SpaceStore.ByRepoIDs
  function ByRepoIDs(table: seq<Space>, ids: seq<int>): seq<Space> {
    if table == [] then []
    else (if table[0].repoId in ids then [table[0]] else []) + ByRepoIDs(table[1..], ids)
  }

  // The spaces of repositories, in repository order; a repository without one is left out.
  function Join(repos: seq<int>, table: seq<Space>): seq<Space> {
    if repos == [] then []
    else
      Join(repos[..|repos| - 1], table) +
      match Lookup(table, repos[|repos| - 1])
      case None => []
      case Some(s) => [s]
  }

  function Matching(spaces: seq<Space>, status: string): seq<Space> {
    if spaces == [] then []
    else
      Matching(spaces[..|spaces| - 1], status) +
      if spaces[|spaces| - 1].status == status then [spaces[|spaces| - 1]] else []
  }

  // The spaces of repositories that have the status, in order.
  function Found(repos: seq<int>, table: seq<Space>, status: string): seq<Space> {
    Matching(Join(repos, table), status)
  }

  // The raw listing from offset lo, n rows or what there is of them.
  function Rows(repos: seq<int>, lo: nat, n: nat): seq<int> {
    if lo >= |repos| then [] else Take(repos[lo..], n)
  }

  // PublicToUser: raw page number page (from 1) of size per. A limit of 0 is no limit, and
  // then the offset is 0.
  function RawPage(repos: seq<int>, per: nat, page: nat): seq<int>
    requires page > 0
  {
    if per == 0 then repos else Rows(repos, (page - 1) * per, per)
  }

  // What a filtered page shows.
  function Shown(repos: seq<int>, table: seq<Space>, status: string, per: nat, page: nat): seq<Space>
    requires page > 0
  {
    Take(Found(Rows(repos, (page - 1) * per, MAX_PAGES * per), table, status), per)
  }

  // ---------------------------------------------------------------- list facts

  lemma {:induction false} LookupByIds(table: seq<Space>, ids: seq<int>, id: int)
    requires id in ids
    ensures Lookup(ByRepoIDs(table, ids), id) == Lookup(table, id)
  {
    if table != [] {
      LookupByIds(table[1..], ids, id);
      var rest := ByRepoIDs(table[1..], ids);
      if table[0].repoId in ids {
        assert ByRepoIDs(table, ids) == [table[0]] + rest;
      } else {
        assert ByRepoIDs(table, ids) == rest;
      }
    }
  }

  lemma {:induction false} JoinConcat(a: seq<int>, b: seq<int>, table: seq<Space>)
    ensures Join(a + b, table) == Join(a, table) + Join(b, table)
  {
    if b == [] {
      assert a + b == a;
    } else {
      assert (a + b)[..|a + b| - 1] == a + b[..|b| - 1];
      JoinConcat(a, b[..|b| - 1], table);
    }
  }

  lemma {:induction false} MatchingConcat(a: seq<Space>, b: seq<Space>, status: string)
    ensures Matching(a + b, status) == Matching(a, status) + Matching(b, status)
  {
    if b == [] {
      assert a + b == a;
    } else {
      assert (a + b)[..|a + b| - 1] == a + b[..|b| - 1];
      MatchingConcat(a, b[..|b| - 1], status);
    }
  }

  lemma FoundConcat(a: seq<int>, b: seq<int>, table: seq<Space>, status: string)
    ensures Found(a + b, table, status) == Found(a, table, status) + Found(b, table, status)
  {
    JoinConcat(a, b, table);
    MatchingConcat(Join(a, table), Join(b, table), status);
  }

  lemma RowsNext(repos: seq<int>, lo: nat, n: nat, m: nat)
    ensures Rows(repos, lo, n) + Rows(repos, lo + n, m) == Rows(repos, lo, n + m)
  {}

  lemma RowsEnd(repos: seq<int>, lo: nat, n: nat, m: nat)
    requires n <= m && lo + n >= |repos|
    ensures Rows(repos, lo, n) == Rows(repos, lo, m)
  {}

  lemma TakeMore<T>(a: seq<T>, b: seq<T>, n: nat)
    ensures Take(Take(a, n) + b, n) == Take(a + b, n)
    ensures |a| >= n ==> Take(a + b, n) == Take(a, n)
  {}

  // ---------------------------------------------------------------- the code

  method ConvertReposToSpaces(repos: seq<int>, table: seq<Space>) returns (res: seq<Space>)
    ensures res == Join(repos, table)
  {
    res := [];
    if |repos| == 0 {
      return;
    }
    var spaces := ByRepoIDs(table, repos);
    for i := 0 to |repos|
      invariant res == Join(repos[..i], table)
    {
      LookupByIds(table, repos, repos[i]);
      assert repos[..i + 1][..i] == repos[..i];
      var j := 0;
      while j < |spaces| && spaces[j].repoId != repos[i]
        invariant j <= |spaces|
        invariant Lookup(spaces, repos[i]) == Lookup(spaces[j..], repos[i])
      {
        assert spaces[j..][1..] == spaces[j + 1..];
        j := j + 1;
      }
      if j < |spaces| {
        res := res + [spaces[j]];
      }
    }
    assert repos[..|repos|] == repos;
  }

  // The loop over one page of spaces: stops once the result is full.
  method AppendMatching(res: seq<Space>, page: seq<Space>, status: string, per: nat) returns (r: seq<Space>)
    requires |res| < per
    ensures r == Take(res + Matching(page, status), per)
  {
    r := res;
    for i := 0 to |page|
      invariant |r| < per && r == res + Matching(page[..i], status)
    {
      assert page[..i + 1][..i] == page[..i];
      if page[i].status == status {
        r := r + [page[i]];
        if |r| >= per {
          FullAt(res, page, i + 1, status, per);
          return;
        }
      }
    }
    assert page[..|page|] == page;
  }

  lemma FullAt(res: seq<Space>, page: seq<Space>, i: nat, status: string, per: nat)
    requires i <= |page| && |res + Matching(page[..i], status)| == per
    ensures Take(res + Matching(page, status), per) == res + Matching(page[..i], status)
  {
    MatchingConcat(page[..i], page[i..], status);
    assert page == page[..i] + page[i..];
  }

  // Which store queries succeed: the only one without a status, the one for raw page k of
  // the filter, the one for the size of the listing, and the one for batch k of the count.
  datatype Queries = Queries(listOk: bool, pageOk: nat -> bool, totalOk: bool, batchOk: nat -> bool)

  // The batches counted before one fails, or all of them.
  ghost predicate IsCount(repos: seq<int>, table: seq<Space>, status: string, batchOk: nat -> bool, total: nat) {
    exists k: nat :: CountedTo(repos, table, status, batchOk, total, k)
  }

  ghost predicate CountedTo(repos: seq<int>, table: seq<Space>, status: string, batchOk: nat -> bool, total: nat, k: nat) {
    && total == |Found(Rows(repos, 0, k * BATCH), table, status)|
    && (forall j: nat | j < k :: batchOk(j))
    && (k * BATCH < |repos| ==> !batchOk(k))
  }

  // Index. With a status it fills the page, then counts over the whole listing; without
  // one it joins a raw page, and the total is that of the repositories. A failing query
  // ends the call while the page is filled, and only the count after that.
  method Index(repos: seq<int>, table: seq<Space>, status: string, per: nat, page: nat, q: Queries)
    returns (ok: bool, spaces: seq<Space>, total: nat)
    requires page > 0
    ensures ok <==> if status == "" then q.listOk else forall k: nat | Reached(repos, table, status, per, page, k) :: q.pageOk(k)
    ensures !ok ==> spaces == [] && total == 0
    ensures ok && status == "" ==> spaces == Join(RawPage(repos, per, page), table) && total == |repos|
    ensures ok && status == "" && per == 0 ==> spaces == Join(repos, table)
    ensures ok && status != "" ==> spaces == Shown(repos, table, status, per, page)
    ensures ok && status != "" ==> if q.totalOk then IsCount(repos, table, status, q.batchOk, total) else total == |spaces|
  {
    if status == "" {
      if !q.listOk {
        return false, [], 0;
      }
      spaces := ConvertReposToSpaces(RawPage(repos, per, page), table);
      return true, spaces, |repos|;
    }
    ok, spaces := FillPage(repos, table, status, per, page, q.pageOk);
    if !ok {
      return false, [], 0;
    }
    if !q.totalOk {
      return true, spaces, |spaces|;
    }
    total := CountMatches(repos, table, status, q.batchOk);
  }

  // Without a failing query the count is the number of all matches.
  lemma FullCount(repos: seq<int>, table: seq<Space>, status: string, batchOk: nat -> bool, total: nat)
    requires IsCount(repos, table, status, batchOk, total) && forall k: nat :: batchOk(k)
    ensures total == |Found(repos, table, status)|
  {
    var k: nat :| CountedTo(repos, table, status, batchOk, total, k);
    AllRows(repos, k * BATCH);
  }

  // PublicToUser joins the visible repositories with the space table, whose repository is
  // unique: what it lists has a space.
  function Listed(visible: seq<int>, table: seq<Space>): seq<int> {
    if visible == [] then []
    else Listed(visible[..|visible| - 1], table) +
         match Lookup(table, visible[|visible| - 1])
         case None => []
         case Some(_) => [visible[|visible| - 1]]
  }

  // The unfiltered total of a listing is the number of its spaces exactly when no listed
  // space is gone from the table by the time the spaces are read.
  lemma UnfilteredTotalIff(visible: seq<int>, table: seq<Space>, later: seq<Space>)
    ensures |Join(Listed(visible, table), later)| == |Listed(visible, table)|
       <==> forall id | id in Listed(visible, table) :: Lookup(later, id).Some?
    ensures |Join(Listed(visible, table), table)| == |Listed(visible, table)|
    ensures Join(Listed(visible, table), table) == Join(visible, table)
  {
    ListedSome(visible, table);
    JoinSize(Listed(visible, table), later);
    JoinSize(Listed(visible, table), table);
    JoinListed(visible, table);
  }

  // A space that is listed and then deleted is counted and not shown.
  lemma DeletedSpaceCounted(s: Space)
    ensures Listed([s.repoId], [s]) == [s.repoId] && Join([s.repoId], []) == []
  {
    assert [s.repoId][..0] == [];
  }

  lemma {:induction false} ListedSome(visible: seq<int>, table: seq<Space>)
    ensures forall id | id in Listed(visible, table) :: Lookup(table, id).Some?
  {
    if visible != [] {
      ListedSome(visible[..|visible| - 1], table);
    }
  }

  lemma {:induction false} JoinListed(visible: seq<int>, table: seq<Space>)
    ensures Join(Listed(visible, table), table) == Join(visible, table)
  {
    if visible != [] {
      var init, last := visible[..|visible| - 1], visible[|visible| - 1];
      JoinListed(init, table);
      if Lookup(table, last).Some? {
        assert Listed(visible, table) == Listed(init, table) + [last];
        assert (Listed(init, table) + [last])[..|Listed(init, table)|] == Listed(init, table);
      } else {
        assert Listed(visible, table) == Listed(init, table);
      }
    }
  }

  lemma {:induction false} JoinSize(repos: seq<int>, table: seq<Space>)
    ensures |Join(repos, table)| <= |repos|
    ensures |Join(repos, table)| == |repos| <==> forall id | id in repos :: Lookup(table, id).Some?
  {
    if repos != [] {
      var init, last := repos[..|repos| - 1], repos[|repos| - 1];
      JoinSize(init, table);
      assert repos == init + [last];
      assert last in repos && forall id | id in init :: id in repos;
    }
  }

  method FillPage(repos: seq<int>, table: seq<Space>, status: string, per: nat, page: nat, pageOk: nat -> bool)
    returns (ok: bool, res: seq<Space>)
    requires page > 0
    ensures ok <==> forall k: nat | Reached(repos, table, status, per, page, k) :: pageOk(k)
    ensures if ok then res == Shown(repos, table, status, per, page) else res == []
  {
    ok := true;
    hide *;
    var currentPage, pagesChecked := page, 0;
    res := [];
    FilledStart(repos, table, status, per, page);
    while |res| < per && pagesChecked < MAX_PAGES
      invariant currentPage == page + pagesChecked
      invariant Filled(repos, table, status, per, page, pagesChecked, res)
      invariant pagesChecked == 0 || |repos| > Through(page + pagesChecked - 1, per)
      invariant forall j: nat | j < pagesChecked :: pageOk(j)
      decreases MAX_PAGES - pagesChecked
    {
      IsReached(repos, table, status, per, page, pagesChecked, res);
      if !pageOk(pagesChecked) {
        return false, [];
      }
      var raw, count := RawPage(repos, per, currentPage), |repos|;
      FilledStep(repos, table, status, per, page, pagesChecked, res);
      if |raw| == 0 {
        NoneReached(repos, table, status, per, page, pagesChecked + 1);
        return;
      }
      var pageSpaces := ConvertReposToSpaces(raw, table);
      res := AppendMatching(res, pageSpaces, status, per);
      if count <= Through(currentPage, per) {
        NoneReached(repos, table, status, per, page, pagesChecked + 1);
        return;
      }
      currentPage := currentPage + 1;
      pagesChecked := pagesChecked + 1;
    }
    FilledEnd(repos, table, status, per, page, pagesChecked, res);
    NoneReachedFull(repos, table, status, per, page, pagesChecked, res);
  }

  // The query for raw page k of the window is made: the pages before it did not fill the
  // result, and the listing goes on behind them.
  ghost predicate Reached(repos: seq<int>, table: seq<Space>, status: string, per: nat, page: nat, k: nat) {
    && page > 0 && k < MAX_PAGES
    && |Found(Rows(repos, Through(page - 1, per), Through(k, per)), table, status)| < per
    && (k == 0 || |repos| > Through(page + k - 1, per))
  }

  lemma IsReached(repos: seq<int>, table: seq<Space>, status: string, per: nat, page: nat, k: nat, res: seq<Space>)
    requires Filled(repos, table, status, per, page, k, res) && |res| < per && k < MAX_PAGES
    requires k == 0 || |repos| > Through(page + k - 1, per)
    ensures Reached(repos, table, status, per, page, k)
  {
    hide Found, Rows, Through;
  }

  // From the end of the listing on no query is made.
  lemma NoneReached(repos: seq<int>, table: seq<Space>, status: string, per: nat, page: nat, k: nat)
    requires page > 0 && k > 0 && |repos| <= Through(page + k - 1, per)
    ensures forall j: nat | j >= k :: !Reached(repos, table, status, per, page, j)
  {
    hide Found, Rows;
    forall j: nat | j >= k ensures !Reached(repos, table, status, per, page, j) {
      Scaled(page + k - 1, page + j - 1, per);
    }
  }

  // Nor once the result is full or the window is over.
  lemma NoneReachedFull(repos: seq<int>, table: seq<Space>, status: string, per: nat, page: nat, k: nat, res: seq<Space>)
    requires Filled(repos, table, status, per, page, k, res) && (|res| >= per || k >= MAX_PAGES)
    ensures forall j: nat | j >= k :: !Reached(repos, table, status, per, page, j)
  {
    hide Found, Rows, Through;
    forall j: nat | j >= k ensures !Reached(repos, table, status, per, page, j) {
      FoundGrows(repos, table, status, per, Through(page - 1, per), k, j);
    }
  }

  lemma FoundGrows(repos: seq<int>, table: seq<Space>, status: string, per: nat, lo: nat, k: nat, j: nat)
    requires k <= j
    ensures |Found(Rows(repos, lo, Through(k, per)), table, status)| <= |Found(Rows(repos, lo, Through(j, per)), table, status)|
  {
    Scaled(k, j, per);
    hide Found, Rows;
    FoundSplit(repos, table, status, lo, Through(k, per), Through(j, per) - Through(k, per));
  }

  // After k raw pages from page on: the first matches among them, at most per.
  ghost predicate Filled(repos: seq<int>, table: seq<Space>, status: string, per: nat, page: nat, k: nat, res: seq<Space>) {
    && page > 0 && k <= MAX_PAGES
    && res == Take(Found(Rows(repos, Through(page - 1, per), Through(k, per)), table, status), per)
  }

  lemma FilledStart(repos: seq<int>, table: seq<Space>, status: string, per: nat, page: nat)
    requires page > 0
    ensures Filled(repos, table, status, per, page, 0, [])
  {
    FoundNothing(repos, Through(page - 1, per), table, status, per);
  }

  lemma AtNow(page: nat, per: nat, k: nat)
    requires page > 0
    ensures At(page, per, k, Through(page - 1, per), Through(k, per))
  {}

  lemma FilledStep(repos: seq<int>, table: seq<Space>, status: string, per: nat, page: nat, k: nat, res: seq<Space>)
    requires Filled(repos, table, status, per, page, k, res) && |res| < per && k < MAX_PAGES
    ensures page > 0
    ensures var raw := RawPage(repos, per, page + k);
            var more := Take(res + Matching(Join(raw, table), status), per);
            && (raw == [] ==> res == Shown(repos, table, status, per, page) && |repos| <= Through(page + k, per))
            && (|repos| <= Through(page + k, per) ==> more == Shown(repos, table, status, per, page))
            && Filled(repos, table, status, per, page, k + 1, more)
  {
    hide Found, Rows, Shown, RawPage, Join, Matching, Take, At, Through;
    var lo, n := Through(page - 1, per), Through(k, per);
    AtNow(page, per, k);
    AtNow(page, per, k + 1);
    AtNext(page, per, k, lo, n);
    RawPageAt(repos, page, per, k, lo, n);
    JoinIsFound(RawPage(repos, per, page + k), table, status);
    PageStep(repos, lo, n, per, table, status);
    ThroughNext(k, per);
    if RawPage(repos, per, page + k) == [] {
      WindowEnds(repos, page, per, k, lo, n, table, status);
    }
    if |repos| <= Through(page + k, per) {
      WindowEnds(repos, page, per, k + 1, lo, n + per, table, status);
    }
  }

  lemma ThroughNext(k: nat, per: nat)
    ensures Through(k + 1, per) == Through(k, per) + per
  {}

  lemma FilledEnd(repos: seq<int>, table: seq<Space>, status: string, per: nat, page: nat, k: nat, res: seq<Space>)
    requires Filled(repos, table, status, per, page, k, res) && (|res| >= per || k >= MAX_PAGES)
    ensures page > 0 && res == Shown(repos, table, status, per, page)
  {
    hide Found, Rows, Shown, Take, At, Through;
    AtNow(page, per, k);
    FullOrLast(repos, page, per, k, Through(page - 1, per), Through(k, per), table, status);
  }

  method CountStatus(spaces: seq<Space>, status: string) returns (n: nat)
    ensures n == |Matching(spaces, status)|
  {
    n := 0;
    for i := 0 to |spaces|
      invariant n == |Matching(spaces[..i], status)|
    {
      assert spaces[..i + 1][..i] == spaces[..i];
      if spaces[i].status == status {
        n := n + 1;
      }
    }
    assert spaces[..|spaces|] == spaces;
  }

  // Batch after batch until the offset reaches the number of rows, or one fails.
  method CountMatches(repos: seq<int>, table: seq<Space>, status: string, batchOk: nat -> bool) returns (total: nat)
    ensures IsCount(repos, table, status, batchOk, total)
  {
    hide Found, Rows, Join, Matching;
    total := 0;
    var offset := 0;
    ghost var k: nat := 0;
    FoundNothing(repos, 0, table, status, 0);
    while offset < |repos|
      invariant offset == k * BATCH && forall j: nat | j < k :: batchOk(j)
      invariant total == |Found(Rows(repos, 0, offset), table, status)|
    {
      if !batchOk(offset / BATCH) {
        assert CountedTo(repos, table, status, batchOk, total, k);
        return;
      }
      var batch := RawPage(repos, BATCH, offset / BATCH + 1);
      FoundSplit(repos, table, status, 0, offset, BATCH);
      RowsSome(repos, offset, BATCH);
      JoinIsFound(batch, table, status);
      if |batch| == 0 {
        return;
      }
      var spaces := ConvertReposToSpaces(batch, table);
      var found := CountStatus(spaces, status);
      total := total + found;
      offset := offset + BATCH;
      k := k + 1;
    }
    assert CountedTo(repos, table, status, batchOk, total, k);
  }

  lemma RowsSome(repos: seq<int>, lo: nat, n: nat)
    requires lo < |repos| && n > 0
    ensures Rows(repos, lo, n) != []
  {}

  lemma AllRows(repos: seq<int>, n: nat)
    requires n >= |repos|
    ensures Rows(repos, 0, n) == repos
  {}

  // ---------------------------------------------------------------- steps of the loop

  lemma FoundNothing(repos: seq<int>, lo: nat, table: seq<Space>, status: string, per: nat)
    ensures Found(Rows(repos, lo, 0), table, status) == []
    ensures Take(Found(Rows(repos, lo, 0), table, status), per) == []
  {
    assert Rows(repos, lo, 0) == [];
  }

  lemma JoinIsFound(raw: seq<int>, table: seq<Space>, status: string)
    ensures Matching(Join(raw, table), status) == Found(raw, table, status)
  {}

  // The rows of the raw pages up to a number.
  function Through(page: nat, per: nat): nat { page * per }

  // After k raw pages from page on: n rows from offset lo have been gone through.
  ghost predicate At(page: nat, per: nat, k: nat, lo: nat, n: nat) {
    lo == (page - 1) * per && n == k * per && (page + k - 1) * per == lo + n
  }

  lemma AtNext(page: nat, per: nat, k: nat, lo: nat, n: nat)
    requires At(page, per, k, lo, n)
    ensures At(page, per, k + 1, lo, n + per)
    ensures Through(page + k, per) == lo + n + per
  {
    NextMultiple(k, per);
    NextMultiple(page + k - 1, per);
  }

  lemma RawPageAt(repos: seq<int>, page: nat, per: nat, k: nat, lo: nat, n: nat)
    requires page > 0 && per > 0 && At(page, per, k, lo, n)
    ensures RawPage(repos, per, page + k) == Rows(repos, lo + n, per)
    ensures RawPage(repos, per, page + k) == [] ==> lo + n >= |repos|
  {}

  lemma PageStep(repos: seq<int>, lo: nat, n: nat, per: nat, table: seq<Space>, status: string)
    ensures Take(Take(Found(Rows(repos, lo, n), table, status), per) + Found(Rows(repos, lo + n, per), table, status), per)
         == Take(Found(Rows(repos, lo, n + per), table, status), per)
  {
    RowsNext(repos, lo, n, per);
    FoundConcat(Rows(repos, lo, n), Rows(repos, lo + n, per), table, status);
    hide Found, Rows;
    TakeMore(Found(Rows(repos, lo, n), table, status), Found(Rows(repos, lo + n, per), table, status), per);
  }

  // The listing is exhausted: nothing more to find in the window.
  lemma WindowEnds(repos: seq<int>, page: nat, per: nat, k: nat, lo: nat, n: nat, table: seq<Space>, status: string)
    requires page > 0 && At(page, per, k, lo, n) && k <= MAX_PAGES && lo + n >= |repos|
    ensures Take(Found(Rows(repos, lo, n), table, status), per) == Shown(repos, table, status, per, page)
  {
    Scaled(k, MAX_PAGES, per);
    RowsEnd(repos, lo, n, MAX_PAGES * per);
  }

  // The result is full, or the last page of the window has been looked at.
  lemma FullOrLast(repos: seq<int>, page: nat, per: nat, k: nat, lo: nat, n: nat, table: seq<Space>, status: string)
    requires page > 0 && At(page, per, k, lo, n) && k <= MAX_PAGES
    requires |Take(Found(Rows(repos, lo, n), table, status), per)| >= per || k == MAX_PAGES
    ensures Take(Found(Rows(repos, lo, n), table, status), per) == Shown(repos, table, status, per, page)
  {
    Scaled(k, MAX_PAGES, per);
    hide Found, Rows, Take;
    if k < MAX_PAGES {
      TakeFull(Found(Rows(repos, lo, n), table, status), per);
      FullEarly(repos, lo, n, MAX_PAGES * per - n, table, status, per);
    }
  }

  lemma TakeFull<T>(s: seq<T>, n: nat)
    ensures |Take(s, n)| >= n <==> |s| >= n
  {}

  lemma FullEarly(repos: seq<int>, lo: nat, n: nat, m: nat, table: seq<Space>, status: string, per: nat)
    requires |Found(Rows(repos, lo, n), table, status)| >= per
    ensures Take(Found(Rows(repos, lo, n), table, status), per) == Take(Found(Rows(repos, lo, n + m), table, status), per)
  {
    hide *;
    FoundSplit(repos, table, status, lo, n, m);
    TakeMore(Found(Rows(repos, lo, n), table, status), Found(Rows(repos, lo + n, m), table, status), per);
  }

  // ---------------------------------------------------------------- pages side by side

  lemma {:induction false} FoundLength(repos: seq<int>, table: seq<Space>, status: string)
    ensures |Found(repos, table, status)| <= |repos|
    ensures forall s | s in Found(repos, table, status) :: s.repoId in repos && s.status == status
  {
    if repos == [] {
      assert Join(repos, table) == [];
    } else {
      var init, last := repos[..|repos| - 1], repos[|repos| - 1];
      FoundLength(init, table, status);
      FoundConcat(init, [last], table, status);
      assert repos == init + [last];
      FoundOne(last, table, status);
      hide Found;
    }
  }

  lemma FoundOne(id: int, table: seq<Space>, status: string)
    ensures |Found([id], table, status)| <= 1
    ensures forall s | s in Found([id], table, status) :: s.repoId == id && s.status == status
  {
    LookupHasId(table, id);
    JoinOne(id, table);
    if Lookup(table, id).Some? {
      MatchingOne(Lookup(table, id).value, status);
    }
  }

  lemma JoinOne(id: int, table: seq<Space>)
    ensures Join([id], table) == if Lookup(table, id).Some? then [Lookup(table, id).value] else []
  {
    assert [id][..|[id]| - 1] == [];
    assert Join([], table) == [];
  }

  lemma MatchingOne(s: Space, status: string)
    ensures Matching([s], status) == if s.status == status then [s] else []
  {
    assert [s][..|[s]| - 1] == [];
    assert Matching([], status) == [];
  }

  lemma {:induction false} LookupHasId(table: seq<Space>, id: int)
    ensures Lookup(table, id).Some? ==> Lookup(table, id).value.repoId == id
  {
    if table != [] {
      LookupHasId(table[1..], id);
    }
  }

  // Every matching space of a raw page is shown on the filtered page of that number, so
  // going through all pages misses none.
  lemma NoMatchMissed(repos: seq<int>, table: seq<Space>, status: string, per: nat, page: nat)
    requires page > 0
    ensures per > 0 ==> Found(RawPage(repos, per, page), table, status) <= Shown(repos, table, status, per, page)
    ensures per == 0 ==> Shown(repos, table, status, per, page) == []
  {
    if per == 0 {
      assert |Shown(repos, table, status, per, page)| <= per;
      return;
    }
    NextMultiple(page - 1, per);
    NextMultiple(MAX_PAGES - 1, per);
    MatchesFirst(repos, table, status, per, page, (page - 1) * per, page * per, (MAX_PAGES - 1) * per);
  }

  lemma MatchesFirst(repos: seq<int>, table: seq<Space>, status: string, per: nat, page: nat, lo: nat, mid: nat, rest: nat)
    requires page > 0 && per > 0 && Layout(per, page, lo, mid, rest)
    ensures Found(RawPage(repos, per, page), table, status) <= Shown(repos, table, status, per, page)
  {
    hide *;
    ShownAt(repos, table, status, per, page, lo, mid, rest);
    FoundAtMost(repos, lo, per, table, status);
    FoundSplit(repos, table, status, lo, per, rest);
    TakeKeeps(Found(Rows(repos, lo, per), table, status), Found(Rows(repos, mid, rest), table, status), per);
  }

  lemma TakeKeeps(a: seq<Space>, b: seq<Space>, n: nat)
    requires |a| <= n
    ensures a <= Take(a + b, n)
  {}

  ghost predicate Distinct(ids: seq<int>) { forall i, j | 0 <= i < j < |ids| :: ids[i] != ids[j] }

  ghost predicate Shared(a: seq<Space>, b: seq<Space>) { exists s :: s in a && s in b }

  // Two pages in a row show a space twice exactly when the first raw page does not fill
  // its page and some later raw page of its window has a match.
  lemma PagesOverlapIff(repos: seq<int>, table: seq<Space>, status: string, per: nat, page: nat)
    requires page > 0 && per > 0 && Distinct(repos)
    ensures Shared(Shown(repos, table, status, per, page), Shown(repos, table, status, per, page + 1)) <==>
            |Found(RawPage(repos, per, page), table, status)| < per &&
            Found(Rows(repos, page * per, (MAX_PAGES - 1) * per), table, status) != []
  {
    NextMultiple(page - 1, per);
    NextMultiple(MAX_PAGES - 1, per);
    OverlapAt(repos, table, status, per, page, (page - 1) * per, page * per, (MAX_PAGES - 1) * per);
  }

  // Two repositories of which only the second matches: both pages of one show its space.
  lemma OverlapInput(status: string, other: string)
    requires status != other
    ensures var table := [Space(1, other), Space(2, status)];
            Shown([1, 2], table, status, 1, 1) == [Space(2, status)] == Shown([1, 2], table, status, 1, 2)
  {
    var table := [Space(1, other), Space(2, status)];
    assert table[1..] == [Space(2, status)];
    assert Rows([1, 2], 0, 100) == [1, 2] && Rows([1, 2], 1, 100) == [2];
    FoundOneMore([], 1, table, status);
    FoundOneMore([1], 2, table, status);
    FoundOneMore([], 2, table, status);
    assert [] + [1] == [1] && [1] + [2] == [1, 2] && [] + [2] == [2];
  }

  lemma FoundOneMore(repos: seq<int>, id: int, table: seq<Space>, status: string)
    ensures Found(repos + [id], table, status) == Found(repos, table, status) +
              match Lookup(table, id)
              case None => []
              case Some(s) => if s.status == status then [s] else []
  {
    FoundConcat(repos, [id], table, status);
    assert [id][..0] == [];
    match Lookup(table, id)
    case None => assert Join([id], table) == [];
    case Some(s) => assert Join([id], table) == [s] && [s][..0] == [];
  }

  // Where the raw rows of two pages in a row lie.
  ghost predicate Layout(per: nat, page: nat, lo: nat, mid: nat, rest: nat) {
    lo == (page - 1) * per && mid == page * per && mid == lo + per && rest + per == MAX_PAGES * per
  }

  lemma ShownAt(repos: seq<int>, table: seq<Space>, status: string, per: nat, page: nat, lo: nat, mid: nat, rest: nat)
    requires page > 0 && per > 0 && Layout(per, page, lo, mid, rest)
    ensures mid == lo + per
    ensures Shown(repos, table, status, per, page) == Take(Found(Rows(repos, lo, rest + per), table, status), per)
    ensures Shown(repos, table, status, per, page + 1) == Take(Found(Rows(repos, mid, rest + per), table, status), per)
    ensures RawPage(repos, per, page) == Rows(repos, lo, per)
  {
    hide Found, Take;
  }

  lemma OverlapAt(repos: seq<int>, table: seq<Space>, status: string, per: nat, page: nat, lo: nat, mid: nat, rest: nat)
    requires page > 0 && per > 0 && Distinct(repos) && Layout(per, page, lo, mid, rest)
    ensures Shared(Shown(repos, table, status, per, page), Shown(repos, table, status, per, page + 1)) <==>
            |Found(RawPage(repos, per, page), table, status)| < per && Found(Rows(repos, mid, rest), table, status) != []
  {
    hide *;
    ShownAt(repos, table, status, per, page, lo, mid, rest);
    OverlapCore(repos, table, status, per, lo, mid, rest);
  }

  lemma OverlapCore(repos: seq<int>, table: seq<Space>, status: string, per: nat, lo: nat, mid: nat, rest: nat)
    requires per > 0 && Distinct(repos) && mid == lo + per
    ensures Shared(Take(Found(Rows(repos, lo, rest + per), table, status), per),
                   Take(Found(Rows(repos, mid, rest + per), table, status), per)) <==>
            |Found(Rows(repos, lo, per), table, status)| < per && Found(Rows(repos, mid, rest), table, status) != []
  {
    hide *;
    FoundAtMost(repos, lo, per, table, status);
    FirstIsNotLater(repos, table, status, lo, per, rest + per);
    FoundSplit(repos, table, status, lo, per, rest);
    FoundSplit(repos, table, status, mid, rest, per);
    SharedIff(Found(Rows(repos, lo, per), table, status), Found(Rows(repos, mid, rest), table, status),
              Found(Rows(repos, mid + rest, per), table, status),
              Found(Rows(repos, lo, per + rest), table, status), Found(Rows(repos, mid, rest + per), table, status), per);
  }

  lemma FoundAtMost(repos: seq<int>, lo: nat, n: nat, table: seq<Space>, status: string)
    ensures |Found(Rows(repos, lo, n), table, status)| <= n
  {
    FoundLength(Rows(repos, lo, n), table, status);
    RowsAtMost(repos, lo, n);
  }

  lemma RowsAtMost(repos: seq<int>, lo: nat, n: nat)
    ensures |Rows(repos, lo, n)| <= n
  {}

  lemma FoundSplit(repos: seq<int>, table: seq<Space>, status: string, lo: nat, n: nat, m: nat)
    ensures Found(Rows(repos, lo, n + m), table, status)
         == Found(Rows(repos, lo, n), table, status) + Found(Rows(repos, lo + n, m), table, status)
  {
    RowsNext(repos, lo, n, m);
    FoundConcat(Rows(repos, lo, n), Rows(repos, lo + n, m), table, status);
  }

  lemma SharedIff(first: seq<Space>, later: seq<Space>, beyond: seq<Space>, one: seq<Space>, two: seq<Space>, per: nat)
    requires one == first + later && two == later + beyond
    requires per > 0 && |first| <= per && forall s | s in first :: s !in two
    ensures Shared(Take(one, per), Take(two, per)) <==> |first| < per && later != []
  {
    var a, b := Take(one, per), Take(two, per);
    if |first| < per && later != [] {
      assert a[|first|] == later[0] == b[0];
      assert later[0] in a && later[0] in b;
    }
    if Shared(a, b) {
      var s :| s in a && s in b;
      assert s in two && s in one;
    }
  }

  lemma FirstIsNotLater(repos: seq<int>, table: seq<Space>, status: string, lo: nat, per: nat, m: nat)
    requires Distinct(repos)
    ensures forall s | s in Found(Rows(repos, lo, per), table, status) :: s !in Found(Rows(repos, lo + per, m), table, status)
  {
    FoundLength(Rows(repos, lo, per), table, status);
    FoundLength(Rows(repos, lo + per, m), table, status);
    forall id | id in Rows(repos, lo, per) ensures id !in Rows(repos, lo + per, m) {
      var i :| 0 <= i < |Rows(repos, lo, per)| && Rows(repos, lo, per)[i] == id;
      assert repos[lo + i] == id;
    }
  }

  // What is found are the spaces with the status of the repositories gone through.
  lemma {:induction false} FoundAre(repos: seq<int>, table: seq<Space>, status: string)
    ensures forall s :: s in Found(repos, table, status) <==>
              s.status == status && exists k :: 0 <= k < |repos| && Lookup(table, repos[k]) == Some(s)
  {
    if repos == [] {
      assert Join(repos, table) == [];
    } else {
      var init, last := repos[..|repos| - 1], repos[|repos| - 1];
      FoundAre(init, table, status);
      FoundOneMore(init, last, table, status);
      assert init + [last] == repos;
      forall s ensures (exists k :: 0 <= k < |repos| && Lookup(table, repos[k]) == Some(s)) <==>
                       ((exists k :: 0 <= k < |init| && Lookup(table, init[k]) == Some(s)) || Lookup(table, last) == Some(s))
      {
        if k :| 0 <= k < |init| && Lookup(table, init[k]) == Some(s) { assert repos[k] == init[k]; }
        if Lookup(table, last) == Some(s) { assert repos[|repos| - 1] == last; }
      }
    }
  }

  // The window is 100 raw pages: with pages of one, a first match at the 100th row of it is
  // shown, and one behind it is not.
  lemma WindowOfHundred(repos: seq<int>, table: seq<Space>, status: string, n: nat, s: Space)
    requires |repos| > n && s.status == status && Lookup(table, repos[n]) == Some(s)
    requires forall k | 0 <= k < n :: Lookup(table, repos[k]).None? || Lookup(table, repos[k]).value.status != status
    ensures Shown(repos, table, status, 1, 1) == if n < 100 then [s] else []
  {
    hide *;
    ShownFirst(repos, table, status);
    FirstMatch(repos, table, status, n, 100, s);
  }

  lemma ShownFirst(repos: seq<int>, table: seq<Space>, status: string)
    ensures Shown(repos, table, status, 1, 1) == Take(Found(Rows(repos, 0, 100), table, status), 1)
  {
    hide Found, Rows, Take;
  }

  // The first match of a window is that of the listing, if it lies in the window.
  lemma FirstMatch(repos: seq<int>, table: seq<Space>, status: string, n: nat, m: nat, s: Space)
    requires |repos| > n && s.status == status && Lookup(table, repos[n]) == Some(s)
    requires forall k | 0 <= k < n :: Lookup(table, repos[k]).None? || Lookup(table, repos[k]).value.status != status
    ensures Take(Found(Rows(repos, 0, m), table, status), 1) == if n < m then [s] else []
  {
    hide Found, Lookup;
    if n < m {
      FoundNone(Rows(repos, 0, n), table, status);
      FoundSplit(repos, table, status, 0, n, m - n);
      FoundSplit(repos, table, status, n, 1, m - n - 1);
      assert Rows(repos, n, 1) == [repos[n]];
      FoundOnly(repos[n], table, status);
    } else {
      FoundNone(Rows(repos, 0, m), table, status);
    }
  }

  lemma FoundOnly(id: int, table: seq<Space>, status: string)
    ensures Lookup(table, id).Some? && Lookup(table, id).value.status == status ==> Found([id], table, status) == [Lookup(table, id).value]
  {
    JoinOne(id, table);
    if Lookup(table, id).Some? {
      MatchingOne(Lookup(table, id).value, status);
    }
  }

  lemma {:induction false} FoundNone(repos: seq<int>, table: seq<Space>, status: string)
    requires forall k | 0 <= k < |repos| :: Lookup(table, repos[k]).None? || Lookup(table, repos[k]).value.status != status
    ensures Found(repos, table, status) == []
  {
    if repos == [] {
      assert Join(repos, table) == [];
    } else {
      var init, last := repos[..|repos| - 1], repos[|repos| - 1];
      FoundNone(init, table, status);
      FoundOneMore(init, last, table, status);
      assert init + [last] == repos;
    }
  }

  // The count goes through the listing a hundred rows at a time: when the second batch
  // fails, what is counted are the matches of the first hundred rows.
  lemma CountOfHundreds(repos: seq<int>, table: seq<Space>, status: string, batchOk: nat -> bool, total: nat)
    requires IsCount(repos, table, status, batchOk, total)
    requires batchOk(0) && !batchOk(1) && |repos| > 100
    ensures total == |Found(repos[..100], table, status)|
  {
    var k: nat :| CountedTo(repos, table, status, batchOk, total, k);
    hide Found;
    assert 0 * BATCH < |repos| && k == 1;
    assert Rows(repos, 0, 1 * BATCH) == repos[..100];
  }
}
