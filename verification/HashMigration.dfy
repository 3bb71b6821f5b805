// Moving repositories to hashed paths (BatchMigrateRepoToHashedPath in component/repo.go):
// batches of unhashed repositories above a cursor, until none is left or after one batch.
// Whether a query, a copy or a row update succeeds is an input.
module HashMigration {
  import opened Keyset

  datatype Repo = Repo(id: int, hashed: bool)

  function RepoId(r: Repo): int { r.id }

  function Unhashed(rows: seq<Repo>): seq<Repo> {
    if rows == [] then [] else (if rows[0].hashed then [] else [rows[0]]) + Unhashed(rows[1..])
  }

  // A limit that is not positive is no limit.
  function Limited<T>(s: seq<T>, limit: int): seq<T> { if limit <= 0 then s else Take(s, limit) }

  function FindUnhashedRepos(rows: seq<Repo>, batch: int, last: int): seq<Repo> {
    Limited(Above(Unhashed(rows), RepoId, last), batch)
  }

  function Marked(rows: seq<Repo>, done: set<int>): (r: seq<Repo>)
    ensures |r| == |rows|
    ensures forall k | 0 <= k < |rows| :: r[k] == Repo(rows[k].id, rows[k].hashed || rows[k].id in done)
  {
    if rows == [] then [] else [Repo(rows[0].id, rows[0].hashed || rows[0].id in done)] + Marked(rows[1..], done)
  }

  // The repositories a call goes through, when query k succeeds if findOk(k).
  function Visited(todo: seq<Repo>, batch: int, auto: bool, findOk: nat -> bool, k: nat): seq<Repo>
    decreases |todo|
  {
    var page := Limited(todo, batch);
    if !findOk(k) || page == [] then []
    else if !auto then page
    else page + Visited(todo[|page|..], batch, auto, findOk, k + 1)
  }

  // Whether the call ends without an error: no query up to its last one fails.
  predicate Finishes(todo: seq<Repo>, batch: int, auto: bool, findOk: nat -> bool, k: nat)
    decreases |todo|
  {
    var page := Limited(todo, batch);
    && findOk(k)
    && (page != [] && auto ==> Finishes(todo[|page|..], batch, auto, findOk, k + 1))
  }

  function Ids(rs: seq<Repo>, ok: int -> bool): set<int> { set r | r in rs && ok(r.id) :: r.id }

  function Both(p: int -> bool, q: int -> bool): int -> bool { id => p(id) && q(id) }

  // ---------------------------------------------------------------- marking rows

  lemma {:induction false} MarkedNone(rows: seq<Repo>)
    ensures Marked(rows, {}) == rows
  {
    if rows != [] {
      MarkedNone(rows[1..]);
    }
  }

  lemma {:induction false} MarkedTwice(rows: seq<Repo>, a: set<int>, b: set<int>)
    ensures Marked(Marked(rows, a), b) == Marked(rows, a + b)
  {
    if rows != [] {
      MarkedTwice(rows[1..], a, b);
    }
  }

  lemma IdsConcat(a: seq<Repo>, b: seq<Repo>, ok: int -> bool)
    ensures Ids(a + b, ok) == Ids(a, ok) + Ids(b, ok)
  {
    forall x ensures x in Ids(a + b, ok) <==> x in Ids(a, ok) || x in Ids(b, ok) {}
  }

  lemma IdsBelow(repos: seq<Repo>, ok: int -> bool, last: int)
    requires forall r | r in repos :: r.id <= last
    ensures forall id | id in Ids(repos, ok) :: id <= last
  {}

  // Rows up to the cursor may be marked: what lies above it is found as before.
  lemma {:induction false} StillToDo(rows: seq<Repo>, done: set<int>, last: int)
    requires forall id | id in done :: id <= last
    ensures Above(Unhashed(Marked(rows, done)), RepoId, last) == Above(Unhashed(rows), RepoId, last)
  {
    if rows != [] {
      StillToDo(rows[1..], done, last);
      AboveOne(rows, last);
      AboveOne(Marked(rows, done), last);
    }
  }

  lemma AboveOne(rows: seq<Repo>, last: int)
    requires rows != []
    ensures Above(Unhashed(rows), RepoId, last)
         == (if rows[0].hashed || rows[0].id <= last then [] else [rows[0]]) + Above(Unhashed(rows[1..]), RepoId, last)
  {
    var first := if rows[0].hashed then [] else [rows[0]];
    AboveConcat(first, Unhashed(rows[1..]), RepoId, last);
  }

  lemma {:induction false} UnhashedMembers(rows: seq<Repo>)
    ensures forall r :: r in Unhashed(rows) <==> r in rows && !r.hashed
  {
    if rows != [] {
      UnhashedMembers(rows[1..]);
      assert rows == [rows[0]] + rows[1..];
    }
  }

  lemma {:induction false} UnhashedAscending(rows: seq<Repo>)
    requires Ascending(rows, RepoId)
    ensures Ascending(Unhashed(rows), RepoId)
  {
    if rows != [] {
      UnhashedAscending(rows[1..]);
      UnhashedMembers(rows[1..]);
      forall r | r in Unhashed(rows[1..]) ensures RepoId(rows[0]) < RepoId(r) {
        var k :| 0 <= k < |rows[1..]| && rows[1..][k] == r;
        assert RepoId(rows[0]) < RepoId(rows[k + 1]);
      }
      var u := Unhashed(rows[1..]);
      forall j | 0 <= j < |u| ensures RepoId(rows[0]) < RepoId(u[j]) { assert u[j] in u; }
    }
  }

  lemma PrefixFacts(todo: seq<Repo>, n: nat)
    requires Ascending(todo, RepoId) && n <= |todo|
    ensures Ascending(todo[..n], RepoId)
    ensures n > 0 ==> forall r | r in todo[..n] :: r.id <= todo[n - 1].id
  {
    forall r | r in todo[..n] ensures r.id <= todo[n - 1].id {
      var k :| 0 <= k < n && todo[..n][k] == r;
      assert k < n - 1 ==> RepoId(todo[k]) < RepoId(todo[n - 1]);
    }
  }

  lemma LimitedIsPrefix(s: seq<Repo>, batch: int)
    ensures |Limited(s, batch)| <= |s| && Limited(s, batch) == s[..|Limited(s, batch)|]
  {}

  lemma AllHigher(u: seq<Repo>, last: int)
    ensures forall r | r in Above(u, RepoId, last) :: r.id > last
  {
    AboveMembers(u, RepoId, last);
  }

  lemma IdOf(r: Repo)
    ensures RepoId(r) == r.id
  {}

  // A page of what is left to do, and what is left behind its last row.
  lemma PageOfTodo(rows: seq<Repo>, last: int, batch: int)
    requires Ascending(rows, RepoId)
    ensures var todo := Above(Unhashed(rows), RepoId, last);
            var page := Limited(todo, batch);
            && |page| <= |todo| && page == todo[..|page|]
            && Ascending(page, RepoId) && (forall r | r in page :: r.id > last)
            && (page != [] ==>
                  && todo[|page|..] == Above(Unhashed(rows), RepoId, page[|page| - 1].id)
                  && forall r | r in page :: r.id <= page[|page| - 1].id)
  {
    hide *;
    var u := Unhashed(rows);
    UnhashedAscending(rows);
    AboveAscending(u, RepoId, last);
    AllHigher(u, last);
    var todo := Above(u, RepoId, last);
    LimitedIsPrefix(todo, batch);
    var page := Limited(todo, batch);
    PrefixFacts(todo, |page|);
    forall r | r in page ensures r.id > last { assert r in todo; }
    if page != [] {
      AboveNext(u, RepoId, last, |page| - 1);
      IdOf(page[|page| - 1]);
    }
  }

  // The walk so far, and what it still has to do from query k on.
  ghost predicate Reached(all: seq<Repo>, visited: seq<Repo>, todo: seq<Repo>, batch: int, auto: bool, findOk: nat -> bool, k: nat) {
    && Visited(all, batch, auto, findOk, 0) == visited + Visited(todo, batch, auto, findOk, k)
    && (Finishes(all, batch, auto, findOk, 0) <==> Finishes(todo, batch, auto, findOk, k))
  }

  lemma ReachedStart(all: seq<Repo>, batch: int, auto: bool, findOk: nat -> bool)
    ensures Reached(all, [], all, batch, auto, findOk, 0)
  {}

  lemma ReachedNext(all: seq<Repo>, visited: seq<Repo>, todo: seq<Repo>, batch: int, auto: bool, findOk: nat -> bool, k: nat)
    requires Reached(all, visited, todo, batch, auto, findOk, k)
    ensures !findOk(k) ==> Visited(all, batch, auto, findOk, 0) == visited && !Finishes(all, batch, auto, findOk, 0)
    ensures findOk(k) && Limited(todo, batch) == [] ==>
              Visited(all, batch, auto, findOk, 0) == visited && Finishes(all, batch, auto, findOk, 0)
    ensures findOk(k) && Limited(todo, batch) != [] && !auto ==>
              Visited(all, batch, auto, findOk, 0) == visited + Limited(todo, batch) && Finishes(all, batch, auto, findOk, 0)
    ensures findOk(k) && Limited(todo, batch) != [] && auto ==>
              Reached(all, visited + Limited(todo, batch), todo[|Limited(todo, batch)|..], batch, auto, findOk, k + 1)
  {
    var page := Limited(todo, batch);
    if !findOk(k) || page == [] {
      assert visited + [] == visited;
    } else if auto {
      var rest := Visited(todo[|page|..], batch, auto, findOk, k + 1);
      assert visited + (page + rest) == visited + page + rest;
    }
  }

  // The rows and copies after the repositories in visited have been gone through.
  ghost predicate Done(rows0: seq<Repo>, copies0: set<int>, rows: seq<Repo>, copies: set<int>, visited: seq<Repo>,
                       copyOk: int -> bool, updateOk: int -> bool)
  {
    && rows == Marked(rows0, Ids(visited, Both(copyOk, updateOk)))
    && copies == copies0 + Ids(visited, copyOk)
  }

  lemma DoneNone(rows: seq<Repo>, copies: set<int>, copyOk: int -> bool, updateOk: int -> bool)
    ensures Done(rows, copies, rows, copies, [], copyOk, updateOk)
  {
    MarkedNone(rows);
    assert Ids([], copyOk) == {} && Ids([], Both(copyOk, updateOk)) == {};
  }

  lemma DoneTwice(rows0: seq<Repo>, copies0: set<int>, rows1: seq<Repo>, copies1: set<int>, rows2: seq<Repo>, copies2: set<int>,
                  a: seq<Repo>, b: seq<Repo>, copyOk: int -> bool, updateOk: int -> bool)
    requires Done(rows0, copies0, rows1, copies1, a, copyOk, updateOk) && Done(rows1, copies1, rows2, copies2, b, copyOk, updateOk)
    ensures Done(rows0, copies0, rows2, copies2, a + b, copyOk, updateOk)
  {
    hide Ids, Marked;
    IdsConcat(a, b, copyOk);
    IdsConcat(a, b, Both(copyOk, updateOk));
    MarkedTwice(rows0, Ids(a, Both(copyOk, updateOk)), Ids(b, Both(copyOk, updateOk)));
  }

  // What has been done does not show above the cursor.
  lemma FoundAsBefore(rows0: seq<Repo>, copies0: set<int>, rows: seq<Repo>, copies: set<int>, visited: seq<Repo>,
                      copyOk: int -> bool, updateOk: int -> bool, last: int)
    requires Done(rows0, copies0, rows, copies, visited, copyOk, updateOk) && forall r | r in visited :: r.id <= last
    ensures Above(Unhashed(rows), RepoId, last) == Above(Unhashed(rows0), RepoId, last)
  {
    IdsBelow(visited, Both(copyOk, updateOk), last);
    StillToDo(rows0, Ids(visited, Both(copyOk, updateOk)), last);
  }

  // ---------------------------------------------------------------- the walk

  class Store {
    var rows: seq<Repo>
    var copies: set<int>   // repositories with a copy at the hashed path

    // migrateRepoToHashedPath: copy first, then mark the row.
    method Migrate(id: int, copyOk: int -> bool, updateOk: int -> bool)
      modifies this
      ensures rows == Marked(old(rows), if copyOk(id) && updateOk(id) then {id} else {})
      ensures copies == old(copies) + if copyOk(id) then {id} else {}
    {
      if !copyOk(id) {
        MarkedNone(rows);
        return;
      }
      copies := copies + {id};
      if updateOk(id) {
        rows := Marked(rows, {id});
      } else {
        MarkedNone(rows);
      }
    }

    method Batch(repos: seq<Repo>, maxID: int, copyOk: int -> bool, updateOk: int -> bool) returns (newMax: int)
      requires Ascending(repos, RepoId) && forall r | r in repos :: r.id > maxID
      modifies this
      ensures Done(old(rows), old(copies), rows, copies, repos, copyOk, updateOk)
      ensures newMax == if repos == [] then maxID else repos[|repos| - 1].id
    {
      newMax := maxID;
      DoneNone(rows, copies, copyOk, updateOk);
      for k := 0 to |repos|
        invariant newMax == if k == 0 then maxID else repos[k - 1].id
        invariant Done(old(rows), old(copies), rows, copies, repos[..k], copyOk, updateOk)
      {
        MaxSoFar(repos, k, maxID);
        hide *;
        if repos[k].id > newMax {
          newMax := repos[k].id;
        }
        ghost var rows1, copies1 := rows, copies;
        Migrate(repos[k].id, copyOk, updateOk);
        DoneNext(old(rows), old(copies), rows1, copies1, rows, copies, repos, k, copyOk, updateOk);
      }
      assert repos[..|repos|] == repos;
    }

    // Every unhashed repository above lastID is gone through once, in ascending order of
    // id, whatever fails for others; without auto only the first batch is.
    method BatchMigrateRepoToHashedPath(enabled: bool, auto: bool, batchSize: int, lastID: int,
                                        copyOk: int -> bool, updateOk: int -> bool, findOk: nat -> bool)
      returns (maxID: int, ok: bool)
      requires Ascending(rows, RepoId)
      modifies this
      ensures var todo := Above(Unhashed(old(rows)), RepoId, lastID);
              var visited := if enabled then Visited(todo, batchSize, auto, findOk, 0) else [];
              && Done(old(rows), old(copies), rows, copies, visited, copyOk, updateOk)
              && maxID == (if visited == [] then lastID else visited[|visited| - 1].id)
              && (ok <==> (enabled ==> Finishes(todo, batchSize, auto, findOk, 0)))
    {
      hide *;
      DoneNone(rows, copies, copyOk, updateOk);
      maxID, ok := lastID, true;
      if !enabled {
        return;
      }
      var last, k := lastID, 0;
      ghost var visited: seq<Repo> := [];
      ghost var all := Above(Unhashed(rows), RepoId, lastID);
      ReachedStart(all, batchSize, auto, findOk);
      while true
        invariant last == maxID == if visited == [] then lastID else visited[|visited| - 1].id
        invariant Done(old(rows), old(copies), rows, copies, visited, copyOk, updateOk)
        invariant forall r | r in visited :: r.id <= last
        invariant Reached(all, visited, Above(Unhashed(old(rows)), RepoId, last), batchSize, auto, findOk, k)
        decreases |Above(Unhashed(old(rows)), RepoId, last)|
      {
        ReachedNext(all, visited, Above(Unhashed(old(rows)), RepoId, last), batchSize, auto, findOk, k);
        if !findOk(k) {
          return last, false;
        }
        FoundAsBefore(old(rows), old(copies), rows, copies, visited, copyOk, updateOk, last);
        PageOfTodo(old(rows), last, batchSize);
        var repos := FindUnhashedRepos(rows, batchSize, last);
        FindIsLimited(rows, batchSize, last);
        if |repos| == 0 {
          break;
        }
        ghost var rows1, copies1 := rows, copies;
        maxID := Batch(repos, maxID, copyOk, updateOk);
        DoneTwice(old(rows), old(copies), rows1, copies1, rows, copies, visited, repos, copyOk, updateOk);
        last := maxID;
        visited := visited + repos;
        if !auto {
          break;
        }
        k := k + 1;
      }
    }
  }

  lemma DoneNext(rows0: seq<Repo>, copies0: set<int>, rows1: seq<Repo>, copies1: set<int>, rows: seq<Repo>, copies: set<int>,
                 repos: seq<Repo>, k: nat, copyOk: int -> bool, updateOk: int -> bool)
    requires k < |repos| && Done(rows0, copies0, rows1, copies1, repos[..k], copyOk, updateOk)
    requires rows == Marked(rows1, if copyOk(repos[k].id) && updateOk(repos[k].id) then {repos[k].id} else {})
    requires copies == copies1 + if copyOk(repos[k].id) then {repos[k].id} else {}
    ensures Done(rows0, copies0, rows, copies, repos[..k + 1], copyOk, updateOk)
  {
    hide Done, Marked;
    DoneOne(rows1, copies1, rows, copies, repos[k], copyOk, updateOk);
    DoneTwice(rows0, copies0, rows1, copies1, rows, copies, repos[..k], [repos[k]], copyOk, updateOk);
    assert repos[..k + 1] == repos[..k] + [repos[k]];
  }

  lemma MaxSoFar(repos: seq<Repo>, k: nat, maxID: int)
    requires Ascending(repos, RepoId) && (forall r | r in repos :: r.id > maxID) && k < |repos|
    ensures repos[k].id > if k == 0 then maxID else repos[k - 1].id
  {
    assert k > 0 ==> RepoId(repos[k - 1]) < RepoId(repos[k]);
  }

  lemma FindIsLimited(rows: seq<Repo>, batch: int, last: int)
    ensures FindUnhashedRepos(rows, batch, last) == Limited(Above(Unhashed(rows), RepoId, last), batch)
  {}

  lemma DoneOne(rows0: seq<Repo>, copies0: set<int>, rows: seq<Repo>, copies: set<int>, r: Repo,
                copyOk: int -> bool, updateOk: int -> bool)
    requires rows == Marked(rows0, if copyOk(r.id) && updateOk(r.id) then {r.id} else {})
    requires copies == copies0 + if copyOk(r.id) then {r.id} else {}
    ensures Done(rows0, copies0, rows, copies, [r], copyOk, updateOk)
  {
    assert r in [r];
    assert Ids([r], copyOk) == if copyOk(r.id) then {r.id} else {};
    assert Ids([r], Both(copyOk, updateOk)) == if copyOk(r.id) && updateOk(r.id) then {r.id} else {};
  }

  // ---------------------------------------------------------------- properties

  // With auto and no failing query the call visits every unhashed repository above the
  // cursor once, in order, and finishes; any batch size will do.
  lemma {:induction false} AutoVisitsAll(todo: seq<Repo>, batch: int, findOk: nat -> bool, k: nat)
    requires forall j :: findOk(j)
    ensures Visited(todo, batch, true, findOk, k) == todo && Finishes(todo, batch, true, findOk, k)
    decreases |todo|
  {
    var page := Limited(todo, batch);
    LimitedIsPrefix(todo, batch);
    if page != [] {
      AutoVisitsAll(todo[|page|..], batch, findOk, k + 1);
    }
  }

  // Failing queries cut the walk short, but what was visited is always a prefix: no
  // repository is skipped and none is visited twice.
  lemma {:induction false} VisitedIsPrefix(todo: seq<Repo>, batch: int, auto: bool, findOk: nat -> bool, k: nat)
    ensures var v := Visited(todo, batch, auto, findOk, k); |v| <= |todo| && v == todo[..|v|]
    ensures auto && Finishes(todo, batch, auto, findOk, k) ==> Visited(todo, batch, auto, findOk, k) == todo
    decreases |todo|
  {
    var page := Limited(todo, batch);
    LimitedIsPrefix(todo, batch);
    if findOk(k) && page != [] && auto {
      VisitedIsPrefix(todo[|page|..], batch, auto, findOk, k + 1);
    }
  }

  // A row is marked only when its copy exists, over any sequence of calls.
  ghost predicate HashedHaveCopies(rows: seq<Repo>, copies: set<int>) {
    forall r | r in rows && r.hashed :: r.id in copies
  }

  lemma MarkedHaveCopies(rows0: seq<Repo>, copies0: set<int>, rows: seq<Repo>, copies: set<int>, visited: seq<Repo>,
                         copyOk: int -> bool, updateOk: int -> bool)
    requires HashedHaveCopies(rows0, copies0) && Done(rows0, copies0, rows, copies, visited, copyOk, updateOk)
    ensures HashedHaveCopies(rows, copies)
  {
    forall r | r in rows && r.hashed ensures r.id in copies {
      var k :| 0 <= k < |rows| && rows[k] == r;
      assert rows0[k] in rows0;
    }
  }

  // What a finished auto call leaves unhashed above its start are exactly the failures,
  // so a second call from the same cursor goes through exactly those.
  lemma LeftOver(rows0: seq<Repo>, copies0: set<int>, rows: seq<Repo>, copies: set<int>, lastID: int,
                 copyOk: int -> bool, updateOk: int -> bool)
    requires Ascending(rows0, RepoId)
    requires Done(rows0, copies0, rows, copies, Above(Unhashed(rows0), RepoId, lastID), copyOk, updateOk)
    ensures forall r :: r in Above(Unhashed(rows), RepoId, lastID)
                    <==> r in Above(Unhashed(rows0), RepoId, lastID) && !(copyOk(r.id) && updateOk(r.id))
  {
    var todo := Above(Unhashed(rows0), RepoId, lastID);
    AboveMembers(Unhashed(rows0), RepoId, lastID);
    AboveMembers(Unhashed(rows), RepoId, lastID);
    UnhashedMembers(rows0);
    UnhashedMembers(rows);
    var marks := Ids(todo, Both(copyOk, updateOk));
    forall r | r in Above(Unhashed(rows), RepoId, lastID) ensures r in todo && !(copyOk(r.id) && updateOk(r.id)) {
      var k :| 0 <= k < |rows| && rows[k] == r;
      assert rows0[k] == r;
    }
    forall r | r in todo && !(copyOk(r.id) && updateOk(r.id)) ensures r in Above(Unhashed(rows), RepoId, lastID) {
      var k :| 0 <= k < |rows0| && rows0[k] == r;
      assert rows[k] == r;
    }
  }

  // One batch, then an auto call from the cursor that batch returned, visits what one
  // auto call would have: the returned cursor is enough to go on.
  lemma ResumeContinues(rows0: seq<Repo>, copies0: set<int>, rows: seq<Repo>, copies: set<int>, lastID: int, batch: int,
                        copyOk: int -> bool, updateOk: int -> bool)
    requires Ascending(rows0, RepoId)
    requires var page := Limited(Above(Unhashed(rows0), RepoId, lastID), batch);
             page != [] && Done(rows0, copies0, rows, copies, page, copyOk, updateOk)
    ensures var page := Limited(Above(Unhashed(rows0), RepoId, lastID), batch);
            Above(Unhashed(rows0), RepoId, lastID) == page + Above(Unhashed(rows), RepoId, page[|page| - 1].id)
  {
    hide *;
    PageOfTodo(rows0, lastID, batch);
    var todo := Above(Unhashed(rows0), RepoId, lastID);
    var page := Limited(todo, batch);
    FoundAsBefore(rows0, copies0, rows, copies, page, copyOk, updateOk, page[|page| - 1].id);
    assert todo == todo[..|page|] + todo[|page|..];
  }

  // But a failure is not retried from there: above the returned cursor nothing is left.
  lemma NothingAboveMax(rows0: seq<Repo>, copies0: set<int>, rows: seq<Repo>, copies: set<int>, lastID: int,
                        copyOk: int -> bool, updateOk: int -> bool)
    requires Ascending(rows0, RepoId)
    requires Done(rows0, copies0, rows, copies, Above(Unhashed(rows0), RepoId, lastID), copyOk, updateOk)
    ensures var all := Above(Unhashed(rows0), RepoId, lastID);
            Above(Unhashed(rows), RepoId, if all == [] then lastID else all[|all| - 1].id) == []
  {
    var all := Above(Unhashed(rows0), RepoId, lastID);
    if all == [] {
      hide *;
      FoundAsBefore(rows0, copies0, rows, copies, all, copyOk, updateOk, lastID);
    } else {
      assert Limited(all, 0) == all;
      hide *;
      ResumeContinues(rows0, copies0, rows, copies, lastID, 0, copyOk, updateOk);
    }
  }

  // A call without auto makes one query. If that succeeds the call does too, and goes
  // through the first batch: as many repositories as the batch size says, or all that are
  // left; a size that is not positive is no limit.
  lemma OneBatch(todo: seq<Repo>, batch: int, findOk: nat -> bool, k: nat)
    ensures Finishes(todo, batch, false, findOk, k) <==> findOk(k)
    ensures var v := Visited(todo, batch, false, findOk, k);
            |v| <= |todo| && v == todo[..|v|] && |v| == if !findOk(k) then 0 else if 0 < batch <= |todo| then batch else |todo|
  {}
}
