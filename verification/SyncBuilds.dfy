// What a sync call builds (createLocalModel and its siblings in component/multi_sync.go,
// common/utils/common/sync_version.go): which repositories, at which paths, and which
// entries it marks complete.
module SyncBuilds {
  import opened Keyset
  import opened MultiSync
  import opened SyncClient
  import opened SyncGaps

  predicate Supported(k: Kind) { k == Model || k == Dataset || k == Prompt || k == MCPServer || k == Skill }

  // The local path of an entry, by the source it comes from.
  lemma LocalPath(e: Entry)
    ensures LocalKey(e).kind == e.kind
    ensures LocalKey(e).path == if e.source == 0 then "CSG_" + e.path else if e.source == 1 then "HF_" + e.path else e.path
  {}

  // Entries of one path and type from the two named sources get different repositories.
  lemma SourcesApart(e: Entry, f: Entry)
    requires e.source == 0 && f.source == 1 && e.path == f.path
    ensures LocalKey(e) != LocalKey(f)
  {
    assert LocalKey(e).path[0] == 'C' && LocalKey(f).path[0] == 'H';
  }

  // How far an entry is replayed before each of the failures.
  lemma ReplayStages(l: Local, e: Entry, o: Outcome)
    ensures ReplayOne(l, e, o).repos
         == if Supported(e.kind) && !o.InfoFails? && !o.UserFails? && !o.RepoFails? then l.repos + {LocalKey(e)} else l.repos
    ensures ReplayOne(l, e, o).typed
         == if Supported(e.kind) && (o.ScoresFail? || o.MarkFails? || o.Fine?) then l.typed + {LocalKey(e)} else l.typed
    ensures !(Supported(e.kind) && o.Fine?) ==> ReplayOne(l, e, o).log == l.log
  {}

  // A replayed entry marks the entries of its own source, path and type up to its version,
  // and no other.
  lemma ReplayMarks(l: Local, e: Entry, o: Outcome, i: nat)
    requires i < |l.log| && Supported(e.kind) && o.Fine?
    ensures |ReplayOne(l, e, o).log| == |l.log|
    ensures var r := l.log[i];
            ReplayOne(l, e, o).log[i] ==
              Row(r.entry, r.completed || (r.entry.source == e.source && r.entry.path == e.path && r.entry.kind == e.kind
                                           && r.entry.version <= e.version))
  {}

  // The keys of the supported entries of a list.
  function BuiltKeys(es: seq<Entry>): set<Key> { set e | e in es && Supported(e.kind) :: LocalKey(e) }

  lemma {:induction false} ReplayBuilds(l: Local, todo: seq<Entry>, n: nat, outcome: Entry -> Outcome)
    requires n <= |todo| && forall e :: outcome(e) == Fine
    ensures ReplayAll(l, todo, n, outcome).repos == l.repos + BuiltKeys(todo[..n])
    ensures ReplayAll(l, todo, n, outcome).typed == l.typed + BuiltKeys(todo[..n])
  {
    if n > 0 {
      ReplayBuilds(l, todo, n - 1, outcome);
      var e := todo[n - 1];
      ReplayStages(ReplayAll(l, todo, n - 1, outcome), e, Fine);
      assert todo[..n] == todo[..n - 1] + [e];
      BuiltOneMore(todo[..n - 1], e);
    }
  }

  lemma BuiltOneMore(es: seq<Entry>, e: Entry)
    ensures BuiltKeys(es + [e]) == BuiltKeys(es) + if Supported(e.kind) then {LocalKey(e)} else {}
  {
    forall key ensures key in BuiltKeys(es + [e]) <==> key in BuiltKeys(es) || (Supported(e.kind) && key == LocalKey(e)) {
      if key in BuiltKeys(es) {
        var d :| d in es && Supported(d.kind) && LocalKey(d) == key;
        assert d in es + [e];
      }
      if Supported(e.kind) && key == LocalKey(e) {
        assert e in es + [e];
      }
    }
  }

  // A call without faults adds a repository and a type row for every supported entry of its
  // work list, at the path of its source, and no other.
  lemma CallBuilds(server: seq<Entry>, l: Local, pullOk: nat -> bool, createOk: Entry -> bool, outcome: Entry -> Outcome)
    requires Ascending(server, Version) && FaultFree(pullOk, createOk, outcome)
    ensures var pulled := l.log + Fresh(Received(server, Latest(l.log), 0, pullOk).0, createOk);
            var todo := WorkList(pulled, |pulled|);
            var after := AfterCall(server, l, Queries(true, true), pullOk, createOk, outcome);
            && IsWorkList(pulled, todo)
            && (forall key :: key in after.repos <==> key in l.repos || exists e :: e in todo && IsAt(key, e))
            && (forall key :: key in after.typed <==> key in l.typed || exists e :: e in todo && IsAt(key, e))
  {
    var pulled := Logged(l, Fresh(Received(server, Latest(l.log), 0, pullOk).0, createOk));
    var todo := WorkList(pulled.log, |pulled.log|);
    WorkListIs(pulled.log);
    ReceivedIsAbove(server, Latest(l.log), 0, pullOk);
    FaultFreeFacts(pullOk, createOk, outcome);
    ReplayBuilds(pulled, todo, |todo|, outcome);
    assert todo[..|todo|] == todo;
    BuiltAre(todo);
    hide Received, Fresh, WorkList, IsWorkList, ReplayAll, Latest, BuiltKeys, IsAt, FaultFree;
  }

  lemma FaultFreeFacts(pullOk: nat -> bool, createOk: Entry -> bool, outcome: Entry -> Outcome)
    requires FaultFree(pullOk, createOk, outcome)
    ensures (forall k: nat :: pullOk(k)) && forall e :: outcome(e) == Fine
  {}

  // The key of an entry that is built, written out.
  predicate IsAt(key: Key, e: Entry) {
    && Supported(e.kind) && key.kind == e.kind
    && key.path == if e.source == 0 then "CSG_" + e.path else if e.source == 1 then "HF_" + e.path else e.path
  }

  lemma BuiltAre(es: seq<Entry>)
    ensures forall key :: key in BuiltKeys(es) <==> exists e :: e in es && IsAt(key, e)
  {
    forall key ensures key in BuiltKeys(es) <==> exists e :: e in es && IsAt(key, e) {
      if key in BuiltKeys(es) {
        var e :| e in es && Supported(e.kind) && LocalKey(e) == key;
        LocalPath(e);
        assert IsAt(key, e);
      }
      if e :| e in es && IsAt(key, e) {
        LocalPath(e);
        assert LocalKey(e) == key;
      }
    }
  }

  // After a call without faults, from a log without a gap, every supported entry of the
  // server has its repository and type row.
  lemma ServerIsBuilt(server: seq<Entry>, l: Local, pullOk: nat -> bool, createOk: Entry -> bool, outcome: Entry -> Outcome, e: Entry)
    requires LocalInv(server, l) && Gapless(server, l.log) && FaultFree(pullOk, createOk, outcome)
    requires e in server && Supported(e.kind)
    ensures var after := AfterCall(server, l, Queries(true, true), pullOk, createOk, outcome);
            var key := Key(e.kind, if e.source == 0 then "CSG_" + e.path else if e.source == 1 then "HF_" + e.path else e.path);
            key in after.repos && key in after.typed
  {
    var pulled := Logged(l, Fresh(Received(server, Latest(l.log), 0, pullOk).0, createOk));
    var todo := WorkList(pulled.log, |pulled.log|);
    var after := AfterCall(server, l, Queries(true, true), pullOk, createOk, outcome);
    FaultFreePull(server, l, pullOk, createOk, outcome);
    PullKeepsInv(server, l, pullOk, createOk);
    WorkListIs(pulled.log);
    FaultFreeReplay(pulled, todo, outcome);
    ReplayKeepsInv(server, pulled, todo, |todo|, outcome);
    hide Received, Fresh, WorkList, IsWorkList, ReplayAll, Latest, FaultFree;
    assert Entries(after.log) == server;
    var k :| 0 <= k < |server| && server[k] == e;
    assert after.log[k].entry == Entries(after.log)[k] == e;
    assert Built(after, e);
    LocalPath(e);
  }

  // A page of the server holds up to a hundred versions, and a call asks again after a full
  // one.
  lemma PageOfHundred(server: seq<Entry>, cursor: int)
    ensures var above := Above(server, Version, cursor);
            Page(server, Version, cursor, PAGE) == if |above| <= 100 then above else above[..100]
  {}
}
