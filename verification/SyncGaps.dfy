// How gaps in the local version log arise (SyncAsClient, component/multi_sync.go): a
// version that could not be stored is skipped while the cursor moves on.
module SyncGaps {
  import opened Keyset
  import opened MultiSync
  import opened SyncClient

  // A version of the list could not be stored, and a later one could.
  ghost predicate SkipsThenStores(es: seq<Entry>, createOk: Entry -> bool) {
    exists i, j :: 0 <= i < j < |es| && !createOk(es[i]) && createOk(es[j])
  }

  lemma {:induction false} FreshExact(es: seq<Entry>, createOk: Entry -> bool)
    ensures forall e :: e in Entries(Fresh(es, createOk)) <==> e in es && createOk(e)
  {
    if es != [] {
      var init, last := es[..|es| - 1], es[|es| - 1];
      FreshExact(init, createOk);
      assert es == init + [last];
      assert Entries(Fresh(es, createOk)) == Entries(Fresh(init, createOk)) + if createOk(last) then [last] else [];
    }
  }

  predicate HasVersion(es: seq<Entry>, v: int) { exists i :: 0 <= i < |es| && es[i].version == v }

  lemma StoredIn(log: seq<Row>, v: int)
    ensures Stored(log, v) <==> HasVersion(Entries(log), v)
  {
    if Stored(log, v) {
      var i :| 0 <= i < |log| && log[i].entry.version == v;
      assert Entries(log)[i].version == v;
    }
  }

  // Lost depends on the entries only.
  lemma LostSame(log: seq<Row>, log': seq<Row>, v: int)
    requires Entries(log) == Entries(log')
    ensures Lost(log, v) <==> Lost(log', v)
  {
    StoredIn(log, v);
    StoredIn(log', v);
    LatestSame(log, log');
  }

  lemma {:induction false} ReplayKeepsEntries(l: Local, todo: seq<Entry>, n: nat, outcome: Entry -> Outcome)
    requires n <= |todo|
    ensures Entries(ReplayAll(l, todo, n, outcome).log) == Entries(l.log)
  {
    if n > 0 {
      ReplayKeepsEntries(l, todo, n - 1, outcome);
      OneKeepsEntries(ReplayAll(l, todo, n - 1, outcome), todo[n - 1], outcome(todo[n - 1]));
    }
  }

  lemma OneKeepsEntries(l: Local, e: Entry, o: Outcome)
    ensures Entries(ReplayOne(l, e, o).log) == Entries(l.log)
  {}

  // A version that is not lost before the pull, and lies at or below the latest one, is
  // stored.
  lemma LowIsStored(server: seq<Entry>, l: Local, e: Entry)
    requires LocalInv(server, l) && Gapless(server, l.log) && e in server && e.version <= Latest(l.log)
    ensures Stored(l.log, e.version)
  {
    var k :| 0 <= k < |server| && server[k] == e;
    assert !Lost(l.log, server[k].version);
  }

  // The received versions, in the server's order.
  lemma ReceivedOrder(server: seq<Entry>, l: Local, got: seq<Entry>, e: Entry, f: Entry)
    requires LocalInv(server, l) && got <= Above(server, Version, Latest(l.log))
    requires e in server && e.version > Latest(l.log) && f in got && e.version < f.version
    ensures exists i, j :: 0 <= i < j < |got| && got[i] == e && got[j] == f
  {
    var above := Above(server, Version, Latest(l.log));
    AboveMembers(server, Version, Latest(l.log));
    AboveAscending(server, Version, Latest(l.log));
    hide Above, LocalInv;
    var i :| 0 <= i < |above| && above[i] == e;
    var j :| 0 <= j < |got| && got[j] == f;
    assert above[j] == f;
    assert Version(above[i]) == e.version && Version(above[j]) == f.version;
    assert got[i] == e;
  }

  lemma LatestAtLeast(log: seq<Row>, e: Entry)
    requires e in Entries(log)
    ensures Latest(log) >= e.version
  {
    var n :| 0 <= n < |log| && Entries(log)[n] == e;
    assert log[n].entry.version <= Latest(log);
  }

  lemma StoredEither(a: seq<Row>, b: seq<Row>, v: int)
    ensures Stored(a + b, v) <==> Stored(a, v) || Stored(b, v)
  {
    if Stored(a, v) {
      var i :| 0 <= i < |a| && a[i].entry.version == v;
      assert (a + b)[i] == a[i];
    }
    if Stored(b, v) {
      var i :| 0 <= i < |b| && b[i].entry.version == v;
      assert (a + b)[|a| + i] == b[i];
    }
  }

  lemma HighNotStored(log: seq<Row>, v: int)
    requires v > Latest(log)
    ensures !Stored(log, v)
  {}

  lemma GapWhenSkipped(server: seq<Entry>, l: Local, got: seq<Entry>, createOk: Entry -> bool)
    requires LocalInv(server, l) && got <= Above(server, Version, Latest(l.log)) && SkipsThenStores(got, createOk)
    ensures !Gapless(server, l.log + Fresh(got, createOk))
  {
    var i, j :| 0 <= i < j < |got| && !createOk(got[i]) && createOk(got[j]);
    AboveMembers(server, Version, Latest(l.log));
    AboveAscending(server, Version, Latest(l.log));
    var above := Above(server, Version, Latest(l.log));
    assert above[i] in above && Version(above[i]) < Version(above[j]);
    var k :| 0 <= k < |server| && server[k] == got[i];
    LostAtSkip(l.log, above, got, createOk, i, j);
    assert Lost(l.log + Fresh(got, createOk), server[k].version);
  }

  lemma LostAtSkip(log: seq<Row>, above: seq<Entry>, got: seq<Entry>, createOk: Entry -> bool, i: nat, j: nat)
    requires Ascending(above, Version) && got <= above && i < j < |got| && !createOk(got[i]) && createOk(got[j])
    requires got[i].version > Latest(log)
    ensures Lost(log + Fresh(got, createOk), got[i].version)
  {
    var rows, v := Fresh(got, createOk), got[i].version;
    assert Version(above[i]) < Version(above[j]);
    HighNotStored(log, v);
    NotFresh(above, got, createOk, i);
    StoredIn(rows, v);
    assert !Stored(rows, v) by {
      forall m | 0 <= m < |Entries(rows)| ensures Entries(rows)[m].version != v { assert Entries(rows)[m] in Entries(rows); }
    }
    StoredEither(log, rows, v);
    FreshExact(got, createOk);
    EntriesConcat(log, rows);
    hide Latest, Entries, Fresh, Stored;
    LatestAtLeast(log + rows, got[j]);
  }

  // The version of an entry that was not stored is no fresh row's.
  lemma NotFresh(above: seq<Entry>, got: seq<Entry>, createOk: Entry -> bool, i: nat)
    requires Ascending(above, Version) && got <= above && i < |got| && !createOk(got[i])
    ensures forall e | e in Entries(Fresh(got, createOk)) :: e.version != got[i].version
  {
    FreshExact(got, createOk);
    forall e | e in Entries(Fresh(got, createOk)) ensures e.version != got[i].version {
      var m :| 0 <= m < |got| && got[m] == e;
      assert m < i ==> Version(above[m]) < Version(above[i]);
      assert i < m ==> Version(above[i]) < Version(above[m]);
    }
  }

  lemma NoGapWhenNot(server: seq<Entry>, l: Local, got: seq<Entry>, createOk: Entry -> bool)
    requires LocalInv(server, l) && Gapless(server, l.log) && got <= Above(server, Version, Latest(l.log))
    requires !SkipsThenStores(got, createOk)
    ensures Gapless(server, l.log + Fresh(got, createOk))
  {
    var log := l.log + Fresh(got, createOk);
    forall k | 0 <= k < |server| ensures !Lost(log, server[k].version) {
      NotLost(server, l, got, createOk, server[k]);
    }
  }

  lemma NotLost(server: seq<Entry>, l: Local, got: seq<Entry>, createOk: Entry -> bool, e: Entry)
    requires LocalInv(server, l) && Gapless(server, l.log) && got <= Above(server, Version, Latest(l.log))
    requires !SkipsThenStores(got, createOk) && e in server
    ensures !Lost(l.log + Fresh(got, createOk), e.version)
  {
    var rows := Fresh(got, createOk);
    StoredEither(l.log, rows, e.version);
    if e.version <= Latest(l.log) {
      LowIsStored(server, l, e);
    } else if Latest(l.log + rows) > e.version {
      LatestIsFresh(l.log, rows, e.version);
      var f :| f in Entries(rows) && f.version > e.version;
      FreshExact(got, createOk);
      ReceivedOrder(server, l, got, e, f);
      var i, j :| 0 <= i < j < |got| && got[i] == e && got[j] == f;
      assert createOk(got[j]) && createOk(got[i]);
      hide Latest, Fresh, LocalInv, Gapless;
      assert e in Entries(rows);
      var m :| 0 <= m < |Entries(rows)| && Entries(rows)[m] == e;
      StoredIn(rows, e.version);
      assert HasVersion(Entries(rows), e.version);
    }
  }

  lemma LatestIsFresh(log: seq<Row>, rows: seq<Row>, v: int)
    requires v > Latest(log) && Latest(log + rows) > v
    ensures exists f :: f in Entries(rows) && f.version > v
  {
    var n :| 0 <= n < |log + rows| && (log + rows)[n].entry.version == Latest(log + rows);
    assert forall m | 0 <= m < |log| :: (log + rows)[m] == log[m];
    assert Entries(rows)[n - |log|] in Entries(rows);
  }

  // The entries a call leaves are those of the log and the pulled ones.
  lemma CallEntries(server: seq<Entry>, l: Local, q: Queries, pullOk: nat -> bool, createOk: Entry -> bool, outcome: Entry -> Outcome)
    requires Ascending(server, Version) && q.latestOk
    ensures Entries(AfterCall(server, l, q, pullOk, createOk, outcome).log)
         == Entries(l.log + Fresh(Received(server, Latest(l.log), 0, pullOk).0, createOk))
  {
    var pulled := Logged(l, Fresh(Received(server, Latest(l.log), 0, pullOk).0, createOk));
    var todo := WorkList(pulled.log, |pulled.log|);
    ReplayKeepsEntries(pulled, todo, |todo|, outcome);
    hide Received, Fresh, Latest, WorkList, ReplayAll, Entries;
  }

  // A call that starts without a gap leaves none exactly when no version it received
  // failed to be stored before a later one that was; nothing else in the call matters.
  lemma GapMadeIff(server: seq<Entry>, l: Local, q: Queries, pullOk: nat -> bool, createOk: Entry -> bool, outcome: Entry -> Outcome)
    requires LocalInv(server, l) && Gapless(server, l.log)
    ensures Gapless(server, AfterCall(server, l, q, pullOk, createOk, outcome).log)
       <==> !q.latestOk || !SkipsThenStores(Received(server, Latest(l.log), 0, pullOk).0, createOk)
  {
    if q.latestOk {
      var got := Received(server, Latest(l.log), 0, pullOk).0;
      ReceivedIsAbove(server, Latest(l.log), 0, pullOk);
      CallEntries(server, l, q, pullOk, createOk, outcome);
      var after := AfterCall(server, l, q, pullOk, createOk, outcome);
      GaplessSame(server, l.log + Fresh(got, createOk), after.log);
      hide *;
      if SkipsThenStores(got, createOk) {
        GapWhenSkipped(server, l, got, createOk);
      } else {
        NoGapWhenNot(server, l, got, createOk);
      }
    }
  }

  lemma GaplessSame(server: seq<Entry>, log: seq<Row>, log': seq<Row>)
    requires Entries(log) == Entries(log')
    ensures Gapless(server, log) <==> Gapless(server, log')
  {
    hide Lost, Entries;
    forall k | 0 <= k < |server| {
      LostSame(log, log', server[k].version);
    }
  }

  // A client without a log loses version 1 when only its insert fails.
  lemma FirstVersionLost(e1: Entry, e2: Entry, pullOk: nat -> bool, createOk: Entry -> bool, outcome: Entry -> Outcome)
    requires e1.version == 1 && e2.version == 2 && pullOk(0) && !createOk(e1) && createOk(e2)
    ensures Ascending([e1, e2], Version)
    ensures var after := AfterCall([e1, e2], Local([], {}, {}), Queries(true, true), pullOk, createOk, outcome);
            Lost(after.log, 1) && Entries(after.log) == [e2]
  {
    var server, l := [e1, e2], Local([], {}, {});
    assert Ascending(server, Version);
    PullTwo(e1, e2, pullOk, createOk);
    CallEntries(server, l, Queries(true, true), pullOk, createOk, outcome);
    NoneLatest();
    LostBehind(e2);
    hide *;
    assert l.log + [Row(e2, false)] == [Row(e2, false)];
    LostSame([Row(e2, false)], AfterCall(server, l, Queries(true, true), pullOk, createOk, outcome).log, 1);
    EntriesOne(e2);
  }

  lemma EntriesOne(e: Entry)
    ensures Entries([Row(e, false)]) == [e]
  {}

  lemma NoneLatest()
    ensures Latest([]) == 0
  {}

  lemma LostBehind(e: Entry)
    requires e.version == 2
    ensures Lost([Row(e, false)], 1)
  {
    assert [Row(e, false)][..0] == [];
  }

  lemma PullTwo(e1: Entry, e2: Entry, pullOk: nat -> bool, createOk: Entry -> bool)
    requires e1.version == 1 && e2.version == 2 && pullOk(0) && !createOk(e1) && createOk(e2)
    requires Ascending([e1, e2], Version)
    ensures Received([e1, e2], 0, 0, pullOk) == ([e1, e2], true)
    ensures Fresh([e1, e2], createOk) == [Row(e2, false)]
  {
    AllAbove([e1, e2], Version, 0);
    ReceivedStep([e1, e2], 0, 0, pullOk);
    hide Received;
    assert [e1, e2][..1] == [e1] && [e1][..0] == [];
    assert Fresh([e1], createOk) == [];
  }
}
