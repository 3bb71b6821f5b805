// Creating mirrors in a batch (BatchCreate in component/mirror.go): mirrors whose source
// URL is already known get a new priority and remote time, the others are created. Source
// URLs are not unique in the table. Whether each of the three statements succeeds is an
// input.
module MirrorBatch {
  import opened Counting
  import opened Wrappers

  datatype Request = Request(url: string, sourceID: int, priority: int, updatedAt: int)

  datatype Status = Queued | OtherStatus(code: string)

  datatype Mirror = Mirror(id: int, url: string, sourceID: int, repositoryID: int, priority: int, remoteUpdatedAt: int, status: Status)

  function Raised(priority: int): int { if priority == 0 then 1 else priority }

  // ---------------------------------------------------------------- what is wanted

  // The last entry of the request for a URL.
  function LastFor(reqs: seq<Request>, url: string): Option<Request> {
    if reqs == [] then None
    else if reqs[|reqs| - 1].url == url then Some(reqs[|reqs| - 1])
    else LastFor(reqs[..|reqs| - 1], url)
  }

  function Refreshed(m: Mirror, reqs: seq<Request>): Mirror {
    match LastFor(reqs, m.url)
    case None => m
    case Some(q) => m.(priority := Raised(q.priority), remoteUpdatedAt := q.updatedAt)
  }

  predicate HasUrl(rows: seq<Mirror>, url: string) { exists k :: 0 <= k < |rows| && rows[k].url == url }

  // The entries that create a mirror: those whose URL no row has.
  function New(rows: seq<Mirror>, reqs: seq<Request>): seq<Request> {
    if reqs == [] then []
    else New(rows, reqs[..|reqs| - 1]) + if HasUrl(rows, reqs[|reqs| - 1].url) then [] else [reqs[|reqs| - 1]]
  }

  function Created(q: Request, id: int): Mirror {
    Mirror(id, q.url, q.sourceID, 0, Raised(q.priority), q.updatedAt, Queued)
  }

  ghost predicate IsRefresh(rows: seq<Mirror>, rows': seq<Mirror>, reqs: seq<Request>) {
    && |rows'| == |rows|
    && forall k | 0 <= k < |rows| :: rows'[k] == Refreshed(rows[k], reqs)
  }

  // Rows that were refreshed, then one new row for every new entry, in order.
  ghost predicate IsBatch(rows: seq<Mirror>, rows': seq<Mirror>, reqs: seq<Request>) {
    && |rows'| == |rows| + |New(rows, reqs)|
    && IsRefresh(rows, rows'[..|rows|], reqs)
    && forall k | 0 <= k < |New(rows, reqs)| :: rows'[|rows| + k] == Created(New(rows, reqs)[k], rows'[|rows| + k].id)
  }

  predicate DistinctIds(rows: seq<Mirror>) { forall i, j | 0 <= i < j < |rows| :: rows[i].id != rows[j].id }

  predicate DistinctUrls(reqs: seq<Request>) { forall i, j | 0 <= i < j < |reqs| :: reqs[i].url != reqs[j].url }

  predicate Asks(reqs: seq<Request>, url: string) { exists k :: 0 <= k < |reqs| && reqs[k].url == url }

  // ---------------------------------------------------------------- the statements

  function WithUrls(rows: seq<Mirror>, urls: seq<string>): seq<Mirror> {
    if rows == [] then []
    else WithUrls(rows[..|rows| - 1], urls) + if rows[|rows| - 1].url in urls then [rows[|rows| - 1]] else []
  }

  // UPDATE of the columns priority and remote_updated_at by primary key.
  function Rewritten(row: Mirror, updates: seq<Mirror>): Mirror {
    if updates == [] then row
    else if updates[0].id == row.id then row.(priority := updates[0].priority, remoteUpdatedAt := updates[0].remoteUpdatedAt)
    else Rewritten(row, updates[1..])
  }

  class Store {
    var rows: seq<Mirror>
    var nextID: int

    ghost predicate Valid()
      reads this
    {
      DistinctIds(rows) && forall k | 0 <= k < |rows| :: rows[k].id < nextID
    }

    method BatchUpdate(updates: seq<Mirror>)
      modifies this`rows
      ensures |rows| == |old(rows)| && forall k | 0 <= k < |rows| :: rows[k] == Rewritten(old(rows)[k], updates)
    {
      rows := seq(|rows|, k requires 0 <= k < |rows| reads this => Rewritten(rows[k], updates));
    }

    method BatchInsert(mirrors: seq<Mirror>)
      requires Valid()
      modifies this
      ensures Valid()
      ensures |rows| == |old(rows)| + |mirrors| && rows[..|old(rows)|] == old(rows)
      ensures forall k | 0 <= k < |mirrors| :: rows[|old(rows)| + k] == mirrors[k].(id := rows[|old(rows)| + k].id)
    {
      for k := 0 to |mirrors|
        invariant Valid()
        invariant |rows| == |old(rows)| + k && rows[..|old(rows)|] == old(rows)
        invariant forall j | 0 <= j < k :: rows[|old(rows)| + j] == mirrors[j].(id := rows[|old(rows)| + j].id)
      {
        rows := rows + [mirrors[k].(id := nextID)];
        nextID := nextID + 1;
      }
    }

    method BatchCreate(reqs: seq<Request>, findOk: bool, updateOk: bool, createOk: bool) returns (ok: bool)
      requires Valid()
      modifies this
      ensures Valid()
      ensures ok <==> findOk && (updateOk || !AnyAsked(old(rows), reqs)) && (createOk || New(old(rows), reqs) == [])
      ensures ok ==> IsBatch(old(rows), rows, reqs)
      ensures !ok ==> if findOk && (updateOk || !AnyAsked(old(rows), reqs)) then IsRefresh(old(rows), rows, reqs) else rows == old(rows)
    {
      ok := findOk;
      if !ok {
        return;
      }
      var mapping, urls := BuildMapping(reqs);
      var existing := WithUrls(rows, urls);
      var updates, known := SplitUpdates(existing, mapping, reqs, rows, urls);
      var creates := SplitCreates(reqs, known, rows);
      hide *;
      AskedIff(rows, urls, reqs);
      ok := Update(updates, updateOk, urls, reqs);
      if !ok {
        return;
      }
      if |creates| > 0 && !createOk {
        return false;
      }
      ghost var refreshed := rows;
      BatchInsert(creates);
      Together(old(rows), refreshed, rows, creates, reqs);
    }

    // The update statement, left out when there is nothing to update.
    method Update(updates: seq<Mirror>, updateOk: bool, ghost urls: seq<string>, ghost reqs: seq<Request>) returns (ok: bool)
      requires Valid() && AreUrls(urls, reqs) && AreUpdates(updates, WithUrls(rows, urls), reqs)
      modifies this`rows
      ensures Valid()
      ensures ok <==> updateOk || updates == []
      ensures if ok then IsRefresh(old(rows), rows, reqs) else rows == old(rows)
    {
      ok := updateOk || |updates| == 0;
      if !ok {
        return;
      }
      if |updates| > 0 {
        BatchUpdate(updates);
      } else {
        NoneRewritten(rows, updates);
      }
      hide WithUrls, AreUrls, AreUpdates, Rewritten, Refreshed;
      UpdateIsRefresh(old(rows), rows, urls, updates, reqs);
      RefreshKeepsIds(old(rows), rows, reqs, nextID);
    }
  }

  predicate AnyAsked(rows: seq<Mirror>, reqs: seq<Request>) { exists k :: 0 <= k < |rows| && Asks(reqs, rows[k].url) }

  ghost predicate IsMapping(m: map<string, Request>, reqs: seq<Request>) {
    forall url :: (url in m <==> LastFor(reqs, url).Some?) && (url in m ==> m[url] == LastFor(reqs, url).value)
  }

  ghost predicate AreUrls(urls: seq<string>, reqs: seq<Request>) {
    |urls| == |reqs| && forall k | 0 <= k < |reqs| :: urls[k] == reqs[k].url
  }

  // The request by URL; a later entry replaces an earlier one.
  method BuildMapping(reqs: seq<Request>) returns (mapping: map<string, Request>, urls: seq<string>)
    ensures IsMapping(mapping, reqs) && AreUrls(urls, reqs)
  {
    mapping, urls := map[], [];
    for k := 0 to |reqs|
      invariant IsMapping(mapping, reqs[..k]) && AreUrls(urls, reqs[..k])
    {
      assert reqs[..k + 1] == reqs[..k] + [reqs[k]] && reqs[..k + 1][..k] == reqs[..k];
      mapping := mapping[reqs[k].url := reqs[k]];
      urls := urls + [reqs[k].url];
    }
    assert reqs[..|reqs|] == reqs;
  }

  // One update for every existing row, carrying the request's priority and time.
  ghost predicate AreUpdates(updates: seq<Mirror>, existing: seq<Mirror>, reqs: seq<Request>) {
    |updates| == |existing| && forall k | 0 <= k < |existing| :: updates[k] == Refreshed(existing[k], reqs)
  }

  method SplitUpdates(existing: seq<Mirror>, mapping: map<string, Request>, reqs: seq<Request>, ghost rows: seq<Mirror>, ghost urls: seq<string>)
    returns (updates: seq<Mirror>, known: seq<string>)
    requires IsMapping(mapping, reqs) && AreUrls(urls, reqs) && existing == WithUrls(rows, urls)
    ensures AreUpdates(updates, existing, reqs)
    ensures forall url | Asks(reqs, url) :: url in known <==> HasUrl(rows, url)
  {
    WithUrlsMembers(rows, urls);
    updates, known := [], [];
    for k := 0 to |existing|
      invariant AreUpdates(updates, existing[..k], reqs)
      invariant |known| == k && forall j | 0 <= j < k :: known[j] == existing[j].url
    {
      var e := existing[k];
      AskedMapped(reqs, urls, e.url) by { assert e in existing; }
      if e.url in mapping {
        var q := mapping[e.url];
        updates := updates + [e.(priority := Raised(q.priority), remoteUpdatedAt := q.updatedAt)];
      }
      known := known + [e.url];
    }
    assert existing[..|existing|] == existing;
    KnownUrls(existing, known, rows, urls, reqs);
  }

  lemma KnownUrls(existing: seq<Mirror>, known: seq<string>, rows: seq<Mirror>, urls: seq<string>, reqs: seq<Request>)
    requires existing == WithUrls(rows, urls) && AreUrls(urls, reqs)
    requires |known| == |existing| && forall j | 0 <= j < |known| :: known[j] == existing[j].url
    ensures forall url | Asks(reqs, url) :: url in known <==> HasUrl(rows, url)
  {
    WithUrlsMembers(rows, urls);
    forall url | Asks(reqs, url) ensures url in known <==> HasUrl(rows, url) {
      var i :| 0 <= i < |reqs| && reqs[i].url == url;
      assert urls[i] == url;
      if url in known {
        var j :| 0 <= j < |known| && known[j] == url;
        assert existing[j] in rows;
      }
      if HasUrl(rows, url) {
        var j :| 0 <= j < |rows| && rows[j].url == url;
        assert rows[j] in existing;
      }
    }
  }

  lemma {:induction false} WithUrlsMembers(rows: seq<Mirror>, urls: seq<string>)
    ensures forall m :: m in WithUrls(rows, urls) <==> m in rows && m.url in urls
  {
    if rows != [] {
      WithUrlsMembers(rows[..|rows| - 1], urls);
      assert rows == rows[..|rows| - 1] + [rows[|rows| - 1]];
    }
  }

  lemma {:induction false} LastForAsks(reqs: seq<Request>, url: string)
    ensures LastFor(reqs, url).Some? <==> Asks(reqs, url)
    ensures LastFor(reqs, url).Some? ==> LastFor(reqs, url).value in reqs && LastFor(reqs, url).value.url == url
  {
    if reqs != [] {
      var init := reqs[..|reqs| - 1];
      LastForAsks(init, url);
      if Asks(init, url) {
        var k :| 0 <= k < |init| && init[k].url == url;
        assert reqs[k].url == url;
      }
      if Asks(reqs, url) && reqs[|reqs| - 1].url != url {
        var k :| 0 <= k < |reqs| && reqs[k].url == url;
        assert init[k].url == url;
      }
    }
  }

  lemma AskedMapped(reqs: seq<Request>, urls: seq<string>, url: string)
    requires AreUrls(urls, reqs)
    ensures url in urls <==> Asks(reqs, url)
    ensures LastFor(reqs, url).Some? <==> Asks(reqs, url)
  {
    LastForAsks(reqs, url);
    if Asks(reqs, url) {
      var k :| 0 <= k < |reqs| && reqs[k].url == url;
      assert urls[k] == url;
    }
  }

  ghost predicate AreCreates(creates: seq<Mirror>, entries: seq<Request>) {
    |creates| == |entries| && forall k | 0 <= k < |entries| :: creates[k] == Created(entries[k], 0)
  }

  method SplitCreates(reqs: seq<Request>, known: seq<string>, ghost rows: seq<Mirror>) returns (creates: seq<Mirror>)
    requires forall url | Asks(reqs, url) :: url in known <==> HasUrl(rows, url)
    ensures AreCreates(creates, New(rows, reqs))
  {
    creates := [];
    for k := 0 to |reqs|
      invariant AreCreates(creates, New(rows, reqs[..k]))
    {
      var q := reqs[k];
      assert reqs[..k + 1][..k] == reqs[..k];
      assert Asks(reqs, q.url);
      if q.url !in known {
        creates := creates + [Mirror(0, q.url, q.sourceID, 0, Raised(q.priority), q.updatedAt, Queued)];
      }
    }
    assert reqs[..|reqs|] == reqs;
  }

  // ---------------------------------------------------------------- putting it together

  lemma AskedIff(rows: seq<Mirror>, urls: seq<string>, reqs: seq<Request>)
    requires AreUrls(urls, reqs)
    ensures |WithUrls(rows, urls)| > 0 <==> AnyAsked(rows, reqs)
  {
    WithUrlsMembers(rows, urls);
    if AnyAsked(rows, reqs) {
      var k :| 0 <= k < |rows| && Asks(reqs, rows[k].url);
      AskedMapped(reqs, urls, rows[k].url);
      assert rows[k] in WithUrls(rows, urls);
    }
    if |WithUrls(rows, urls)| > 0 {
      var m := WithUrls(rows, urls)[0];
      assert m in rows;
      var k :| 0 <= k < |rows| && rows[k] == m;
      AskedMapped(reqs, urls, m.url);
    }
  }

  lemma NoneRewritten(rows: seq<Mirror>, updates: seq<Mirror>)
    requires updates == []
    ensures forall k | 0 <= k < |rows| :: rows[k] == Rewritten(rows[k], updates)
  {}

  lemma {:induction false} RewrittenBy(row: Mirror, updates: seq<Mirror>)
    ensures (forall j | 0 <= j < |updates| :: updates[j].id != row.id) ==> Rewritten(row, updates) == row
    ensures (exists j :: 0 <= j < |updates| && updates[j].id == row.id) ==>
              exists j :: 0 <= j < |updates| && updates[j].id == row.id
                       && Rewritten(row, updates) == row.(priority := updates[j].priority, remoteUpdatedAt := updates[j].remoteUpdatedAt)
  {
    if updates != [] && updates[0].id != row.id {
      RewrittenBy(row, updates[1..]);
      if exists j :: 0 <= j < |updates| && updates[j].id == row.id {
        var j :| 0 <= j < |updates| && updates[j].id == row.id;
        assert updates[1..][j - 1].id == row.id;
        var i :| 0 <= i < |updates[1..]| && updates[1..][i].id == row.id
              && Rewritten(row, updates[1..]) == row.(priority := updates[1..][i].priority, remoteUpdatedAt := updates[1..][i].remoteUpdatedAt);
        assert updates[i + 1] == updates[1..][i];
      }
    }
  }

  lemma UpdateIsRefresh(rows: seq<Mirror>, rows': seq<Mirror>, urls: seq<string>, updates: seq<Mirror>, reqs: seq<Request>)
    requires DistinctIds(rows) && AreUrls(urls, reqs) && AreUpdates(updates, WithUrls(rows, urls), reqs)
    requires |rows'| == |rows| && forall k | 0 <= k < |rows| :: rows'[k] == Rewritten(rows[k], updates)
    ensures IsRefresh(rows, rows', reqs)
  {
    forall k | 0 <= k < |rows| ensures rows'[k] == Refreshed(rows[k], reqs) {
      RowRefreshed(rows, k, urls, updates, reqs);
    }
  }

  lemma RowRefreshed(rows: seq<Mirror>, k: nat, urls: seq<string>, updates: seq<Mirror>, reqs: seq<Request>)
    requires DistinctIds(rows) && AreUrls(urls, reqs) && AreUpdates(updates, WithUrls(rows, urls), reqs) && k < |rows|
    ensures Rewritten(rows[k], updates) == Refreshed(rows[k], reqs)
  {
    var existing, row := WithUrls(rows, urls), rows[k];
    RewrittenBy(row, updates);
    AskedMapped(reqs, urls, row.url);
    SameId(rows, k, urls);
    hide WithUrls, Rewritten, LastFor, DistinctIds, AreUrls, Asks;
    if row.url in urls {
      var j :| 0 <= j < |existing| && existing[j] == row;
      assert updates[j].id == row.id;
    }
  }

  // The rows found for the URLs that have this row's id: the row itself, if its URL is asked.
  lemma SameId(rows: seq<Mirror>, k: nat, urls: seq<string>)
    requires DistinctIds(rows) && k < |rows|
    ensures forall m | m in WithUrls(rows, urls) && m.id == rows[k].id :: m == rows[k]
    ensures rows[k] in WithUrls(rows, urls) <==> rows[k].url in urls
  {
    WithUrlsMembers(rows, urls);
    forall m | m in WithUrls(rows, urls) && m.id == rows[k].id ensures m == rows[k] {
      var i :| 0 <= i < |rows| && rows[i] == m;
    }
  }

  lemma RefreshKeepsIds(rows: seq<Mirror>, rows': seq<Mirror>, reqs: seq<Request>, bound: int)
    requires IsRefresh(rows, rows', reqs) && DistinctIds(rows)
    ensures DistinctIds(rows')
    ensures (forall k | 0 <= k < |rows| :: rows[k].id < bound) ==> forall k | 0 <= k < |rows'| :: rows'[k].id < bound
  {}

  lemma Together(rows: seq<Mirror>, refreshed: seq<Mirror>, rows': seq<Mirror>, creates: seq<Mirror>, reqs: seq<Request>)
    requires IsRefresh(rows, refreshed, reqs) && AreCreates(creates, New(rows, reqs))
    requires |rows'| == |refreshed| + |creates| && rows'[..|refreshed|] == refreshed
    requires forall k | 0 <= k < |creates| :: rows'[|refreshed| + k] == creates[k].(id := rows'[|refreshed| + k].id)
    ensures IsBatch(rows, rows', reqs)
  {}

  // ---------------------------------------------------------------- properties

  lemma {:induction false} NewMembers(rows: seq<Mirror>, reqs: seq<Request>)
    ensures forall q :: q in New(rows, reqs) <==> q in reqs && !HasUrl(rows, q.url)
  {
    if reqs != [] {
      NewMembers(rows, reqs[..|reqs| - 1]);
      assert reqs == reqs[..|reqs| - 1] + [reqs[|reqs| - 1]];
    }
  }

  // Updates and creations split the request by URL: every requested URL is in exactly one
  // of the two, and nothing else is in either.
  lemma UpdatesAndCreatesSplit(rows: seq<Mirror>, reqs: seq<Request>, urls: seq<string>, url: string)
    requires AreUrls(urls, reqs)
    ensures HasUrl(WithUrls(rows, urls), url) <==> Asks(reqs, url) && HasUrl(rows, url)
    ensures Asks(New(rows, reqs), url) <==> Asks(reqs, url) && !HasUrl(rows, url)
  {
    WithUrlsMembers(rows, urls);
    NewMembers(rows, reqs);
    AskedMapped(reqs, urls, url);
    var w, n := WithUrls(rows, urls), New(rows, reqs);
    if HasUrl(w, url) {
      var k :| 0 <= k < |w| && w[k].url == url;
      assert w[k] in rows;
    }
    if Asks(reqs, url) {
      var i :| 0 <= i < |reqs| && reqs[i].url == url;
      if HasUrl(rows, url) {
        var k :| 0 <= k < |rows| && rows[k].url == url;
        assert rows[k] in w;
      } else {
        assert reqs[i] in n;
      }
    }
    if Asks(n, url) {
      var k :| 0 <= k < |n| && n[k].url == url;
      assert n[k] in reqs;
    }
  }

  // A mirror carries what an entry asks for.
  predicate Carries(m: Mirror, q: Request) { m.priority == Raised(q.priority) && m.remoteUpdatedAt == q.updatedAt }

  predicate Agrees(a: Request, b: Request) { Raised(a.priority) == Raised(b.priority) && a.updatedAt == b.updatedAt }

  lemma BatchUrls(rows: seq<Mirror>, rows': seq<Mirror>, reqs: seq<Request>)
    requires IsBatch(rows, rows', reqs)
    ensures RowUrls(rows') == RowUrls(rows) + Urls(New(rows, reqs))
  {
    forall k | 0 <= k < |rows| ensures rows'[k].url == rows[k].url {
      assert rows'[k] == rows'[..|rows|][k];
    }
    forall k | 0 <= k < |New(rows, reqs)| ensures rows'[|rows| + k].url == New(rows, reqs)[k].url {}
  }

  function RowUrls(rows: seq<Mirror>): seq<string> { seq(|rows|, k requires 0 <= k < |rows| => rows[k].url) }

  function Urls(reqs: seq<Request>): seq<string> { seq(|reqs|, k requires 0 <= k < |reqs| => reqs[k].url) }

  // What a row of the new table is: an old row refreshed, or a new one.
  lemma RowOf(rows: seq<Mirror>, rows': seq<Mirror>, reqs: seq<Request>, k: nat)
    requires IsBatch(rows, rows', reqs) && k < |rows'|
    ensures k < |rows| ==> rows'[k] == Refreshed(rows[k], reqs)
    ensures k >= |rows| ==> exists q :: q in reqs && !HasUrl(rows, q.url) && rows'[k] == Created(q, rows'[k].id)
  {
    if k < |rows| {
      assert rows'[..|rows|][k] == rows'[k];
    } else {
      NewMembers(rows, reqs);
      var q := New(rows, reqs)[k - |rows|];
      assert q in New(rows, reqs);
      assert rows'[|rows| + (k - |rows|)] == Created(q, rows'[k].id);
    }
  }

  // Afterwards every requested URL has a mirror.
  lemma EveryUrlHasMirror(rows: seq<Mirror>, rows': seq<Mirror>, reqs: seq<Request>, url: string)
    requires IsBatch(rows, rows', reqs)
    ensures HasUrl(rows', url) <==> HasUrl(rows, url) || Asks(reqs, url)
  {
    UpdatesAndCreatesSplit(rows, reqs, Urls(reqs), url);
    UrlsIn(rows, reqs, url);
    UrlsIn(rows', New(rows, reqs), url);
    BatchUrls(rows, rows', reqs);
  }

  lemma UrlsIn(rows: seq<Mirror>, reqs: seq<Request>, url: string)
    ensures HasUrl(rows, url) <==> url in RowUrls(rows)
    ensures Asks(reqs, url) <==> url in Urls(reqs)
  {
    if HasUrl(rows, url) {
      var k :| 0 <= k < |rows| && rows[k].url == url;
      assert RowUrls(rows)[k] == url;
    }
    if Asks(reqs, url) {
      var k :| 0 <= k < |reqs| && reqs[k].url == url;
      assert Urls(reqs)[k] == url;
    }
  }

  // All mirrors of a URL carry what its last entry asks for exactly when the URL was known
  // before, or its entries agree with each other.
  lemma LastEntryCarriedIff(rows: seq<Mirror>, rows': seq<Mirror>, reqs: seq<Request>, url: string)
    requires IsBatch(rows, rows', reqs) && Asks(reqs, url)
    ensures LastFor(reqs, url).Some?
    ensures (forall m | m in rows' && m.url == url :: Carries(m, LastFor(reqs, url).value))
       <==> HasUrl(rows, url) || forall q | q in reqs && q.url == url :: Agrees(q, LastFor(reqs, url).value)
  {
    LastForAsks(reqs, url);
    var last := LastFor(reqs, url).value;
    if HasUrl(rows, url) || forall q | q in reqs && q.url == url :: Agrees(q, last) {
      forall m | m in rows' && m.url == url ensures Carries(m, last) {
        var k :| 0 <= k < |rows'| && rows'[k] == m;
        RowOf(rows, rows', reqs, k);
      }
    } else {
      var q :| q in reqs && q.url == url && !Agrees(q, last);
      NewMembers(rows, reqs);
      assert q in New(rows, reqs);
      var k :| 0 <= k < |New(rows, reqs)| && New(rows, reqs)[k] == q;
      assert rows'[|rows| + k] == Created(q, rows'[|rows| + k].id);
      assert rows'[|rows| + k] in rows';
    }
  }

  // With distinct URLs every entry is carried by every mirror of its URL.
  lemma DistinctCarried(rows: seq<Mirror>, rows': seq<Mirror>, reqs: seq<Request>, q: Request, m: Mirror)
    requires IsBatch(rows, rows', reqs) && DistinctUrls(reqs) && q in reqs
    requires m in rows' && m.url == q.url
    ensures Carries(m, q)
  {
    assert Asks(reqs, q.url);
    LastForAsks(reqs, q.url);
    LastEntryCarriedIff(rows, rows', reqs, q.url);
    forall p | p in reqs && p.url == q.url ensures p == q {
      var i :| 0 <= i < |reqs| && reqs[i] == p;
      var j :| 0 <= j < |reqs| && reqs[j] == q;
    }
  }

  // No other mirror changes, and of a requested one only the two columns do.
  lemma OthersKept(rows: seq<Mirror>, rows': seq<Mirror>, reqs: seq<Request>, k: nat)
    requires IsBatch(rows, rows', reqs) && k < |rows|
    ensures !Asks(reqs, rows[k].url) ==> rows'[k] == rows[k]
    ensures rows'[k].(priority := rows[k].priority, remoteUpdatedAt := rows[k].remoteUpdatedAt) == rows[k]
  {
    RowOf(rows, rows', reqs, k);
    LastForAsks(reqs, rows[k].url);
  }

  lemma {:induction false} CountNew(rows: seq<Mirror>, reqs: seq<Request>, url: string)
    ensures Count(Urls(New(rows, reqs)), url) == if HasUrl(rows, url) then 0 else Count(Urls(reqs), url)
  {
    if reqs != [] {
      var init, q := reqs[..|reqs| - 1], reqs[|reqs| - 1];
      CountNew(rows, init, url);
      assert Urls(reqs) == Urls(init) + [q.url];
      CountAppend(Urls(init), q.url, url);
      if !HasUrl(rows, q.url) {
        assert Urls(New(rows, reqs)) == Urls(New(rows, init)) + [q.url];
        CountAppend(Urls(New(rows, init)), q.url, url);
      } else {
        assert New(rows, reqs) == New(rows, init);
      }
    }
  }

  // A URL no mirror had gets one mirror per entry, so exactly one if and only if it occurs
  // once in the request: repeated URLs create repeated mirrors.
  lemma OneMirrorIff(rows: seq<Mirror>, rows': seq<Mirror>, reqs: seq<Request>, url: string)
    requires IsBatch(rows, rows', reqs) && !HasUrl(rows, url)
    ensures Count(RowUrls(rows'), url) == 1 <==> Count(Urls(reqs), url) == 1
  {
    BatchUrls(rows, rows', reqs);
    CountConcat(RowUrls(rows), Urls(New(rows, reqs)), url);
    CountNew(rows, reqs, url);
    CountZero(RowUrls(rows), url);
  }

  // The same request again creates nothing, and from the third run on nothing changes; with
  // distinct URLs the second run already changes nothing.
  lemma Rerun(rows: seq<Mirror>, rows1: seq<Mirror>, rows2: seq<Mirror>, rows3: seq<Mirror>, reqs: seq<Request>)
    requires IsBatch(rows, rows1, reqs) && IsBatch(rows1, rows2, reqs) && IsBatch(rows2, rows3, reqs)
    ensures |rows2| == |rows1| && rows3 == rows2
    ensures DistinctUrls(reqs) ==> rows2 == rows1
  {
    NothingNew(rows, rows1, reqs);
    NothingNew(rows1, rows2, reqs);
    forall k | 0 <= k < |rows2| ensures rows3[k] == rows2[k] {
      RowOf(rows1, rows2, reqs, k);
      RowOf(rows2, rows3, reqs, k);
    }
    if DistinctUrls(reqs) {
      forall k | 0 <= k < |rows1| ensures rows2[k] == rows1[k] {
        RowOf(rows1, rows2, reqs, k);
        LastForAsks(reqs, rows1[k].url);
        if LastFor(reqs, rows1[k].url).Some? {
          DistinctCarried(rows, rows1, reqs, LastFor(reqs, rows1[k].url).value, rows1[k]);
        }
      }
    }
  }

  lemma NothingNew(rows: seq<Mirror>, rows1: seq<Mirror>, reqs: seq<Request>)
    requires IsBatch(rows, rows1, reqs)
    ensures New(rows1, reqs) == []
  {
    NewMembers(rows1, reqs);
    if New(rows1, reqs) != [] {
      var q := New(rows1, reqs)[0];
      assert q in New(rows1, reqs);
      var k :| 0 <= k < |reqs| && reqs[k] == q;
      assert Asks(reqs, q.url);
      EveryUrlHasMirror(rows, rows1, reqs, q.url);
    }
  }

  // The entry that counts for a URL is the last one with it.
  lemma {:induction false} LastForIs(reqs: seq<Request>, url: string, k: nat)
    requires k < |reqs| && reqs[k].url == url && forall j | k < j < |reqs| :: reqs[j].url != url
    ensures LastFor(reqs, url) == Some(reqs[k])
  {
    if k < |reqs| - 1 {
      LastForIs(reqs[..|reqs| - 1], url, k);
    }
  }

  // The columns written: of a known mirror the priority, 0 raised to 1, and the remote time
  // of the last entry for its URL; of a new one those of its entry, its source, no
  // repository yet and the queued status.
  lemma WrittenColumns(rows: seq<Mirror>, rows': seq<Mirror>, reqs: seq<Request>, k: nat)
    requires IsBatch(rows, rows', reqs) && k < |rows'|
    ensures k < |rows| && LastFor(reqs, rows[k].url).Some? ==>
              var q := LastFor(reqs, rows[k].url).value;
              rows'[k] == rows[k].(priority := if q.priority == 0 then 1 else q.priority, remoteUpdatedAt := q.updatedAt)
    ensures k >= |rows| ==>
              exists q :: q in reqs && !HasUrl(rows, q.url) &&
                rows'[k] == Mirror(rows'[k].id, q.url, q.sourceID, 0, if q.priority == 0 then 1 else q.priority, q.updatedAt, Queued)
  {
    RowOf(rows, rows', reqs, k);
    if k >= |rows| {
      var q :| q in reqs && !HasUrl(rows, q.url) && rows'[k] == Created(q, rows'[k].id);
    }
  }

  // New mirrors come in the order of the request.
  lemma {:induction false} NewInOrder(rows: seq<Mirror>, a: seq<Request>, b: seq<Request>)
    ensures New(rows, a + b) == New(rows, a) + New(rows, b)
  {
    if b == [] {
      assert a + b == a;
    } else {
      assert (a + b)[..|a + b| - 1] == a + b[..|b| - 1];
      NewInOrder(rows, a, b[..|b| - 1]);
    }
  }

  // Requests with distinct URLs are built up from new URLs.
  lemma DistinctOneMore(reqs: seq<Request>, q: Request)
    ensures DistinctUrls(reqs + [q]) <==> DistinctUrls(reqs) && !Asks(reqs, q.url)
  {
    var more := reqs + [q];
    forall i | 0 <= i < |reqs| ensures more[i] == reqs[i] && more[|reqs|] == q {}
    if DistinctUrls(more) {
      forall i, j | 0 <= i < j < |reqs| ensures reqs[i].url != reqs[j].url {
        assert more[i] == reqs[i] && more[j] == reqs[j];
      }
    }
  }
}
