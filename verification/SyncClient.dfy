// SyncAsClient (component/multi_sync.go) as one call against a fixed server log. Which
// calls and store operations fail is given by functions.
module SyncClient {
  import opened Keyset
  import opened MultiSync

  // How far the replay of one entry gets before it fails.
  datatype Outcome = InfoFails | UserFails | RepoFails | TypeRowFails | ScoresFail | MarkFails | Fine

  // Whether the two queries of a call on its own log succeed: for the latest version, and
  // for the work list.
  datatype Queries = Queries(latestOk: bool, workOk: bool)

  // ---------------------------------------------------------------- what a call does

  // The versions received page by page from the cursor on, and whether no call failed.
  function Received(server: seq<Entry>, cursor: int, call: nat, pullOk: nat -> bool): (r: (seq<Entry>, bool))
    requires Ascending(server, Version)
    decreases |Above(server, Version, cursor)|
  {
    if !pullOk(call) then ([], false)
    else
      var page := Page(server, Version, cursor, PAGE);
      if |page| < PAGE then (page, true)
      else
        PageThenRest(server, Version, cursor, PAGE);
        var rest := Received(server, page[|page| - 1].version, call + 1, pullOk);
        (page + rest.0, rest.1)
  }

  // The rows created for received versions; a version whose insert fails is skipped.
  function Fresh(es: seq<Entry>, createOk: Entry -> bool): seq<Row> {
    if es == [] then []
    else Fresh(es[..|es| - 1], createOk) + if createOk(es[|es| - 1]) then [Row(es[|es| - 1], false)] else []
  }

  // createLocalModel and its siblings, up to the failing step, and Complete.
  function ReplayOne(l: Local, e: Entry, o: Outcome): Local {
    if e.kind == Other || o.InfoFails? || o.UserFails? || o.RepoFails? then l
    else
      var l1 := l.(repos := l.repos + {LocalKey(e)});
      if o.TypeRowFails? then l1
      else
        var l2 := l1.(typed := l1.typed + {LocalKey(e)});
        if o.Fine? then l2.(log := CompleteUpTo(l2.log, e)) else l2
  }

  function ReplayAll(l: Local, todo: seq<Entry>, n: nat, outcome: Entry -> Outcome): Local
    requires n <= |todo|
  {
    if n == 0 then l else ReplayOne(ReplayAll(l, todo, n - 1, outcome), todo[n - 1], outcome(todo[n - 1]))
  }

  function Logged(l: Local, rows: seq<Row>): Local { l.(log := l.log + rows) }

  // The state a call leaves.
  function AfterCall(server: seq<Entry>, l: Local, q: Queries, pullOk: nat -> bool, createOk: Entry -> bool, outcome: Entry -> Outcome): Local
    requires Ascending(server, Version)
  {
    if !q.latestOk then l else AfterPull(server, l, q, pullOk, createOk, outcome)
  }

  function AfterPull(server: seq<Entry>, l: Local, q: Queries, pullOk: nat -> bool, createOk: Entry -> bool, outcome: Entry -> Outcome): Local
    requires Ascending(server, Version)
  {
    var r := Received(server, Latest(l.log), 0, pullOk);
    var pulled := Logged(l, Fresh(r.0, createOk));
    var todo := WorkList(pulled.log, |pulled.log|);
    if r.1 && q.workOk then ReplayAll(pulled, todo, |todo|, outcome) else pulled
  }

  lemma {:induction false} FreshConcat(a: seq<Entry>, b: seq<Entry>, createOk: Entry -> bool)
    ensures Fresh(a + b, createOk) == Fresh(a, createOk) + Fresh(b, createOk)
  {
    if b == [] {
      assert a + b == a;
    } else {
      assert (a + b)[..|a + b| - 1] == a + b[..|b| - 1];
      FreshConcat(a, b[..|b| - 1], createOk);
    }
  }

  lemma FreshNone(createOk: Entry -> bool)
    ensures Fresh([], createOk) == []
  {}

  // One call: it fails, or brings the last page, or a full page with more behind it.
  lemma ReceivedStep(server: seq<Entry>, cursor: int, call: nat, pullOk: nat -> bool)
    requires Ascending(server, Version)
    ensures var page, r := Page(server, Version, cursor, PAGE), Received(server, cursor, call, pullOk);
            if !pullOk(call) then r == ([], false)
            else if |page| != PAGE then |page| < PAGE && r == (page, true)
            else
              var next := page[|page| - 1].version;
              var rest := Received(server, next, call + 1, pullOk);
              r == (page + rest.0, rest.1) && |Above(server, Version, next)| < |Above(server, Version, cursor)|
  {
    PageThenRest(server, Version, cursor, PAGE);
  }

  // ---------------------------------------------------------------- the client

  class Client {
    var log: seq<Row>
    var repos: set<Key>
    var typed: set<Key>

    function State(): Local
      reads this
    {
      Local(log, repos, typed)
    }

    constructor ()
      ensures State() == Local([], {}, {})
    {
      log, repos, typed := [], {}, {};
    }

    method CreateLocalSyncVersion(e: Entry, ok: bool)
      modifies this`log
      ensures log == old(log) + if ok then [Row(e, false)] else []
    {
      if ok {
        log := log + [Row(e, false)];
      }
    }

    // The loop over the versions of one page.
    method CreateLocalSyncVersions(versions: seq<Entry>, createOk: Entry -> bool)
      modifies this`log
      ensures log == old(log) + Fresh(versions, createOk)
    {
      for i := 0 to |versions|
        invariant log == old(log) + Fresh(versions[..i], createOk)
      {
        assert versions[..i + 1][..i] == versions[..i];
        CreateLocalSyncVersion(versions[i], createOk(versions[i]));
      }
      assert versions[..|versions|] == versions;
    }

    // The loop over pages. The cursor follows the last version received, whether or not
    // it could be stored.
    method Pull(server: seq<Entry>, pullOk: nat -> bool, createOk: Entry -> bool) returns (ok: bool)
      requires Ascending(server, Version)
      modifies this`log
      ensures ok == Received(server, Latest(old(log)), 0, pullOk).1
      ensures log == old(log) + Fresh(Received(server, Latest(old(log)), 0, pullOk).0, createOk)
    {
      hide Received, Above, Fresh, Page, Latest;
      var currentVersion := Latest(log);
      var call := 0;
      var hasMore := true;
      ghost var all := Received(server, currentVersion, 0, pullOk);
      ghost var got, rest := [], all;
      FreshNone(createOk);
      while hasMore
        invariant log == old(log) + Fresh(got, createOk)
        invariant all.0 == got + rest.0 && all.1 == rest.1
        invariant rest == if hasMore then Received(server, currentVersion, call, pullOk) else ([], true)
        decreases hasMore, |Above(server, Version, currentVersion)|
      {
        ReceivedStep(server, currentVersion, call, pullOk);
        if !pullOk(call) {
          assert got + [] == got;
          return false;
        }
        var versions := Page(server, Version, currentVersion, PAGE);
        CreateLocalSyncVersions(versions, createOk);
        FreshConcat(got, versions, createOk);
        hasMore := |versions| == PAGE;
        if |versions| > 0 {
          currentVersion := versions[|versions| - 1].version;
        }
        call := call + 1;
        rest := if hasMore then Received(server, currentVersion, call, pullOk) else ([], true);
        assert got + (versions + rest.0) == (got + versions) + rest.0;
        got := got + versions;
      }
      assert got + [] == got;
      ok := true;
    }

    // The loop over the work list.
    method Replay(todo: seq<Entry>, outcome: Entry -> Outcome)
      modifies this
      ensures State() == ReplayAll(old(State()), todo, |todo|, outcome)
    {
      for i := 0 to |todo|
        invariant State() == ReplayAll(old(State()), todo, i, outcome)
      {
        var e, o := todo[i], outcome(todo[i]);
        var success := false;
        if e.kind != Other && !o.InfoFails? && !o.UserFails? && !o.RepoFails? {
          repos := repos + {LocalKey(e)};
          if !o.TypeRowFails? {
            typed := typed + {LocalKey(e)};
            success := !o.ScoresFail?;
          }
        }
        if success && !o.MarkFails? {
          log := CompleteUpTo(log, e);
        }
      }
    }

    // One call. A failed query or pull ends it before any replay; otherwise the work list
    // is worked off. Whatever fails, the log stays an ascending part of the server's and
    // what is complete is built; when nothing fails and the log had no gap, it becomes
    // the server's log and every entry of a supported type is complete.
    method SyncAsClient(server: seq<Entry>, q: Queries, pullOk: nat -> bool, createOk: Entry -> bool, outcome: Entry -> Outcome)
      returns (ok: bool)
      requires LocalInv(server, State())
      modifies this
      ensures ok <==> q.latestOk && Received(server, Latest(old(log)), 0, pullOk).1 && q.workOk
      ensures State() == AfterCall(server, old(State()), q, pullOk, createOk, outcome)
      ensures LocalInv(server, State())
      ensures Gapless(server, old(log)) && q == Queries(true, true) && FaultFree(pullOk, createOk, outcome)
              ==> ok && Entries(log) == server && AllComplete(log)
    {
      ghost var before := State();
      if !q.latestOk {
        return false;
      }
      ok := Pull(server, pullOk, createOk);
      PullKeepsInv(server, before, pullOk, createOk);
      if !ok {
        if Gapless(server, before.log) && FaultFree(pullOk, createOk, outcome) {
          FaultFreePull(server, before, pullOk, createOk, outcome);
        }
        return;
      }
      if !q.workOk {
        return false;
      }
      ghost var pulled := State();
      var syncVersions := WorkList(log, |log|);
      WorkListIs(log);
      Replay(syncVersions, outcome);
      ReplayKeepsInv(server, pulled, syncVersions, |syncVersions|, outcome);
      if Gapless(server, before.log) && FaultFree(pullOk, createOk, outcome) {
        FaultFreePull(server, before, pullOk, createOk, outcome);
        FaultFreeReplay(pulled, syncVersions, outcome);
      }
    }
  }

  // ---------------------------------------------------------------- pulling

  ghost predicate FaultFree(pullOk: nat -> bool, createOk: Entry -> bool, outcome: Entry -> Outcome) {
    (forall k: nat :: pullOk(k)) && (forall e :: createOk(e)) && (forall e :: outcome(e) == Fine)
  }

  ghost predicate AllComplete(log: seq<Row>) {
    forall i | 0 <= i < |log| && log[i].entry.kind != Other :: log[i].completed
  }

  // What is received is what lies above the cursor, or a first part of it after a failure.
  lemma {:induction false} ReceivedIsAbove(server: seq<Entry>, cursor: int, call: nat, pullOk: nat -> bool)
    requires Ascending(server, Version)
    ensures Received(server, cursor, call, pullOk).0 <= Above(server, Version, cursor)
    ensures Received(server, cursor, call, pullOk).1 ==> Received(server, cursor, call, pullOk).0 == Above(server, Version, cursor)
    ensures (forall k: nat :: pullOk(k)) ==> Received(server, cursor, call, pullOk).1
    decreases |Above(server, Version, cursor)|
  {
    var page := Page(server, Version, cursor, PAGE);
    PageThenRest(server, Version, cursor, PAGE);
    if pullOk(call) && |page| == PAGE {
      ReceivedIsAbove(server, page[|page| - 1].version, call + 1, pullOk);
    }
  }

  lemma {:induction false} FreshMembers(es: seq<Entry>, createOk: Entry -> bool)
    ensures forall r | r in Fresh(es, createOk) :: !r.completed && r.entry in es
    ensures (forall e :: createOk(e)) ==> Entries(Fresh(es, createOk)) == es
  {
    if es != [] {
      FreshMembers(es[..|es| - 1], createOk);
      assert es == es[..|es| - 1] + [es[|es| - 1]];
    }
  }

  lemma {:induction false} FreshFacts(es: seq<Entry>, createOk: Entry -> bool)
    requires Ascending(es, Version)
    ensures Ascending(Fresh(es, createOk), RowVersion)
    ensures forall r | r in Fresh(es, createOk) :: !r.completed && r.entry in es
    ensures (forall e :: createOk(e)) ==> Entries(Fresh(es, createOk)) == es
  {
    FreshMembers(es, createOk);
    if es != [] {
      var init, last := es[..|es| - 1], es[|es| - 1];
      FreshFacts(init, createOk);
      BelowLast(es, Fresh(init, createOk));
    }
  }

  lemma BelowLast(es: seq<Entry>, rows: seq<Row>)
    requires es != [] && Ascending(es, Version)
    requires forall r | r in rows :: r.entry in es[..|es| - 1]
    ensures forall i | 0 <= i < |rows| :: RowVersion(rows[i]) < Version(es[|es| - 1])
  {
    forall i | 0 <= i < |rows| ensures RowVersion(rows[i]) < Version(es[|es| - 1]) {
      assert rows[i] in rows;
      var k :| 0 <= k < |es| - 1 && es[..|es| - 1][k] == rows[i].entry;
      assert Version(es[k]) < Version(es[|es| - 1]);
    }
  }

  lemma AboveIsHigh(server: seq<Entry>, cursor: int, pullOk: nat -> bool)
    requires Ascending(server, Version)
    ensures var got := Received(server, cursor, 0, pullOk).0;
            Ascending(got, Version) && forall e | e in got :: e in server && e.version > cursor
  {
    ReceivedIsAbove(server, cursor, 0, pullOk);
    AboveAscending(server, Version, cursor);
    AboveMembers(server, Version, cursor);
    var got, above := Received(server, cursor, 0, pullOk).0, Above(server, Version, cursor);
    hide Received, Above;
    assert got == above[..|got|];
  }

  lemma PullKeepsInv(server: seq<Entry>, l: Local, pullOk: nat -> bool, createOk: Entry -> bool)
    requires LocalInv(server, l)
    ensures LocalInv(server, l.(log := l.log + Fresh(Received(server, Latest(l.log), 0, pullOk).0, createOk)))
  {
    var got := Received(server, Latest(l.log), 0, pullOk).0;
    AboveIsHigh(server, Latest(l.log), pullOk);
    FreshFacts(got, createOk);
    AppendKeepsInv(server, l, Fresh(got, createOk));
  }

  lemma AppendKeepsInv(server: seq<Entry>, l: Local, rows: seq<Row>)
    requires LocalInv(server, l) && Ascending(rows, RowVersion)
    requires forall r | r in rows :: !r.completed && r.entry in server && r.entry.version > Latest(l.log)
    ensures LocalInv(server, l.(log := l.log + rows))
  {
    forall i | 0 <= i < |rows| ensures rows[i] in rows {}
  }

  lemma FaultFreePull(server: seq<Entry>, l: Local, pullOk: nat -> bool, createOk: Entry -> bool, outcome: Entry -> Outcome)
    requires LocalInv(server, l) && Gapless(server, l.log) && FaultFree(pullOk, createOk, outcome)
    ensures Received(server, Latest(l.log), 0, pullOk).1
    ensures Entries(l.log + Fresh(Received(server, Latest(l.log), 0, pullOk).0, createOk)) == server
  {
    ReceivedIsAbove(server, Latest(l.log), 0, pullOk);
    GaplessIsPrefix(server, l);
    FreshMembers(Received(server, Latest(l.log), 0, pullOk).0, createOk);
    hide *;
    EntriesConcat(l.log, Fresh(Received(server, Latest(l.log), 0, pullOk).0, createOk));
    FaultFreeCalls(pullOk, createOk, outcome);
  }

  lemma FaultFreeCalls(pullOk: nat -> bool, createOk: Entry -> bool, outcome: Entry -> Outcome)
    requires FaultFree(pullOk, createOk, outcome)
    ensures (forall k: nat :: pullOk(k)) && forall e :: createOk(e)
  {}

  lemma EntriesConcat(a: seq<Row>, b: seq<Row>)
    ensures Entries(a + b) == Entries(a) + Entries(b)
  {}

  // ---------------------------------------------------------------- replaying

  lemma ReplayOneKeepsInv(server: seq<Entry>, l: Local, e: Entry, o: Outcome)
    requires LocalInv(server, l)
    ensures LocalInv(server, ReplayOne(l, e, o))
  {
    var t := ReplayOne(l, e, o);
    forall i | 0 <= i < |l.log| && t.log[i].completed ensures Built(t, l.log[i].entry) {
      if !l.log[i].completed {
        assert LocalKey(l.log[i].entry) == LocalKey(e);
      }
    }
  }

  lemma {:induction false} ReplayKeepsInv(server: seq<Entry>, l: Local, todo: seq<Entry>, n: nat, outcome: Entry -> Outcome)
    requires LocalInv(server, l) && n <= |todo|
    ensures LocalInv(server, ReplayAll(l, todo, n, outcome))
  {
    if n > 0 {
      ReplayKeepsInv(server, l, todo, n - 1, outcome);
      ReplayOneKeepsInv(server, ReplayAll(l, todo, n - 1, outcome), todo[n - 1], outcome(todo[n - 1]));
    }
  }

  // Without faults, replaying n entries completes every row some of them covers.
  lemma {:induction false} FaultFreeReplayFirst(l: Local, todo: seq<Entry>, n: nat, outcome: Entry -> Outcome)
    requires n <= |todo| && forall e :: outcome(e) == Fine
    ensures var t := ReplayAll(l, todo, n, outcome);
            && Entries(t.log) == Entries(l.log)
            && (forall i | 0 <= i < |l.log| && l.log[i].completed :: t.log[i].completed)
            && (forall i, k | 0 <= i < |l.log| && 0 <= k < n && todo[k].kind != Other
                  && SameGroup(todo[k], l.log[i].entry) && l.log[i].entry.version <= todo[k].version :: t.log[i].completed)
  {
    if n > 0 {
      FaultFreeReplayFirst(l, todo, n - 1, outcome);
      var s, t := ReplayAll(l, todo, n - 1, outcome), ReplayAll(l, todo, n, outcome);
      forall i | 0 <= i < |l.log| ensures s.log[i].entry == l.log[i].entry { assert Entries(s.log)[i] == Entries(l.log)[i]; }
      hide ReplayAll;
      assert Entries(t.log) == Entries(l.log);
    }
  }

  lemma FaultFreeReplay(l: Local, todo: seq<Entry>, outcome: Entry -> Outcome)
    requires IsWorkList(l.log, todo) && forall e :: outcome(e) == Fine
    ensures Entries(ReplayAll(l, todo, |todo|, outcome).log) == Entries(l.log)
    ensures AllComplete(ReplayAll(l, todo, |todo|, outcome).log)
  {
    FaultFreeReplayFirst(l, todo, |todo|, outcome);
    var t := ReplayAll(l, todo, |todo|, outcome);
    hide ReplayAll;
    forall i | 0 <= i < |t.log| && t.log[i].entry.kind != Other ensures t.log[i].completed {
      assert Entries(t.log)[i] == Entries(l.log)[i];
      if !l.log[i].completed {
        var k :| 0 <= k < |todo| && SameGroup(todo[k], l.log[i].entry) && l.log[i].entry.version <= todo[k].version;
      }
    }
  }

  // Together with GapStays: from a state between runs, the local log can still become the
  // server's exactly when it has no gap.
  lemma GapIff(w: World)
    requires Inv(w) && w.phase == Idle
    ensures Gapless(w.server, w.local.log) <==> PulledLogIsServer(w)
    ensures !Gapless(w.server, w.local.log) ==> forall steps | IsRun(w, steps) :: Entries(End(w, steps).local.log) != End(w, steps).server
  {
    if Gapless(w.server, w.local.log) {
      FaultFreePull(w.server, w.local, k => true, e => true, e => Fine);
    } else {
      forall steps | IsRun(w, steps) ensures Entries(End(w, steps).local.log) != End(w, steps).server {
        GapStays(w, steps);
      }
      GapNotFilled(w);
    }
  }

  // What a pull with no fault leaves in the log is the server's log.
  ghost predicate PulledLogIsServer(w: World)
    requires Ascending(w.server, Version)
  {
    Entries(w.local.log + Fresh(Received(w.server, Latest(w.local.log), 0, k => true).0, e => true)) == w.server
  }

  lemma GapNotFilled(w: World)
    requires Inv(w) && !Gapless(w.server, w.local.log)
    ensures !PulledLogIsServer(w)
  {
    var k :| 0 <= k < |w.server| && Lost(w.local.log, w.server[k].version);
    AboveIsHigh(w.server, Latest(w.local.log), k => true);
    FreshMembers(Received(w.server, Latest(w.local.log), 0, k => true).0, e => true);
    hide Received, Fresh, Latest, Inv;
    StillMissing(w.local.log, Fresh(Received(w.server, Latest(w.local.log), 0, k => true).0, e => true), w.server[k].version);
  }

  lemma StillMissing(log: seq<Row>, rows: seq<Row>, v: int)
    requires Lost(log, v) && forall r | r in rows :: r.entry.version > Latest(log)
    ensures forall i | 0 <= i < |log + rows| :: Entries(log + rows)[i].version != v
  {
    forall i | 0 <= i < |log + rows| ensures Entries(log + rows)[i].version != v {
      if i >= |log| {
        assert (log + rows)[i] in rows;
      }
    }
  }
}
