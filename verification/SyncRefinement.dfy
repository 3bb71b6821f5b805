// A call of SyncAsClient, with whatever faults, is a run of the sync machine.
module SyncRefinement {
  import opened Keyset
  import opened MultiSync
  import opened SyncClient

  ghost predicate Reaches(w: World, t: World) { exists steps :: IsRun(w, steps) && End(w, steps) == t }

  lemma {:induction false} RunsConcat(w: World, a: seq<Step>, b: seq<Step>)
    requires IsRun(w, a) && IsRun(End(w, a), b)
    ensures IsRun(w, a + b) && End(w, a + b) == End(End(w, a), b)
    decreases |a|
  {
    if a == [] {
      assert a + b == b;
    } else {
      RunsConcat(Apply(w, a[0]), a[1..], b);
      assert (a + b)[0] == a[0] && (a + b)[1..] == a[1..] + b;
    }
  }

  lemma Trans(u: World, v: World, w: World)
    requires Reaches(u, v) && Reaches(v, w)
    ensures Reaches(u, w)
  {
    var a :| IsRun(u, a) && End(u, a) == v;
    var b :| IsRun(v, b) && End(v, b) == w;
    RunsConcat(u, a, b);
  }

  lemma Here(w: World)
    ensures Reaches(w, w)
  {
    assert IsRun(w, []) && End(w, []) == w;
  }

  lemma Then(u: World, v: World, step: Step)
    requires Reaches(u, v) && Enabled(v, step)
    ensures Reaches(u, Apply(v, step))
  {
    var t := Apply(v, step);
    assert IsRun(t, []) && [step][1..] == [];
    assert IsRun(v, [step]) && End(v, [step]) == t;
    Trans(u, v, t);
  }

  // Storing the first n versions of a page.
  lemma {:induction false} StoringReaches(server: seq<Entry>, l: Local, cursor: int, page: seq<Entry>, n: nat, createOk: Entry -> bool)
    requires n <= |page|
    ensures Reaches(World(server, l, Storing(cursor, page, 0)),
                    World(server, Logged(l, Fresh(page[..n], createOk)), Storing(cursor, page, n)))
  {
    var u := World(server, l, Storing(cursor, page, 0));
    if n == 0 {
      Here(u);
      assert l.log + [] == l.log;
    } else {
      StoringReaches(server, l, cursor, page, n - 1, createOk);
      assert page[..n][..n - 1] == page[..n - 1];
      var v := World(server, Logged(l, Fresh(page[..n - 1], createOk)), Storing(cursor, page, n - 1));
      Then(u, v, CreateRow(createOk(page[n - 1])));
      hide Reaches;
      assert Fresh(page[..n], createOk) == Fresh(page[..n - 1], createOk) + if createOk(page[n - 1]) then [Row(page[n - 1], false)] else [];
      assert Logged(l, Fresh(page[..n], createOk)).log
          == l.log + Fresh(page[..n - 1], createOk) + if createOk(page[n - 1]) then [Row(page[n - 1], false)] else [];
    }
  }

  // One page, asked for and stored.
  lemma PageReaches(server: seq<Entry>, l: Local, cursor: int, createOk: Entry -> bool)
    ensures var page := Page(server, Version, cursor, PAGE);
            Reaches(World(server, l, Asking(cursor)), World(server, Logged(l, Fresh(page, createOk)), Storing(cursor, page, |page|)))
  {
    var page := Page(server, Version, cursor, PAGE);
    hide Page;
    var u := World(server, l, Asking(cursor));
    Here(u);
    Then(u, u, PageArrives);
    StoringReaches(server, l, cursor, page, |page|, createOk);
    assert page[..|page|] == page;
    Trans(u, World(server, l, Storing(cursor, page, 0)), World(server, Logged(l, Fresh(page, createOk)), Storing(cursor, page, |page|)));
  }

  // A pull ends with its last page stored, or stopped by a failed call.
  ghost predicate Pulled(u: World, server: seq<Entry>, l: Local, ok: bool) {
    if ok then exists cursor, page: seq<Entry> :: |page| < PAGE && Reaches(u, World(server, l, Storing(cursor, page, |page|)))
    else Reaches(u, World(server, l, Idle))
  }

  lemma {:induction false} PullReaches(server: seq<Entry>, l: Local, cursor: int, call: nat, pullOk: nat -> bool, createOk: Entry -> bool)
    requires Ascending(server, Version)
    ensures var r := Received(server, cursor, call, pullOk);
            Pulled(World(server, l, Asking(cursor)), server, Logged(l, Fresh(r.0, createOk)), r.1)
    decreases |Above(server, Version, cursor)|
  {
    var u, r := World(server, l, Asking(cursor)), Received(server, cursor, call, pullOk);
    ReceivedStep(server, cursor, call, pullOk);
    if !pullOk(call) {
      FreshNone(createOk);
      assert l.log + [] == l.log;
      Here(u);
      Then(u, u, Stop);
    } else {
      var page := Page(server, Version, cursor, PAGE);
      var l1 := Logged(l, Fresh(page, createOk));
      PageReaches(server, l, cursor, createOk);
      hide Page, Fresh, Received, Above, Reaches;
      if |page| == PAGE {
        var next := page[|page| - 1].version;
        Then(u, World(server, l1, Storing(cursor, page, |page|)), PageStored);
        PullReaches(server, l1, next, call + 1, pullOk, createOk);
        var rest := Received(server, next, call + 1, pullOk);
        FreshConcat(page, rest.0, createOk);
        LoggedTwice(l, Fresh(page, createOk), Fresh(rest.0, createOk));
        PulledTrans(u, World(server, l1, Asking(next)), server, Logged(l, Fresh(r.0, createOk)), rest.1);
      }
    }
  }

  lemma LoggedTwice(l: Local, a: seq<Row>, b: seq<Row>)
    ensures Logged(Logged(l, a), b) == Logged(l, a + b)
  {
    assert l.log + a + b == l.log + (a + b);
  }

  lemma PulledTrans(u: World, v: World, server: seq<Entry>, l: Local, ok: bool)
    requires Reaches(u, v) && Pulled(v, server, l, ok)
    ensures Pulled(u, server, l, ok)
  {
    hide Reaches;
    if ok {
      var cursor, page: seq<Entry> :| |page| < PAGE && Reaches(v, World(server, l, Storing(cursor, page, |page|)));
      Trans(u, v, World(server, l, Storing(cursor, page, |page|)));
    } else {
      Trans(u, v, World(server, l, Idle));
    }
  }

  // Replaying one entry, as far as it gets.
  lemma EntryReaches(server: seq<Entry>, l: Local, todo: seq<Entry>, n: nat, o: Outcome)
    requires n < |todo|
    ensures Reaches(World(server, l, Replaying(todo, n, Begin)),
                    World(server, ReplayOne(l, todo[n], o), Replaying(todo, n + 1, Begin)))
  {
    var u, e := World(server, l, Replaying(todo, n, Begin)), todo[n];
    Here(u);
    hide Reaches;
    if e.kind == Other || o.InfoFails? || o.UserFails? || o.RepoFails? {
      Then(u, u, GiveUp);
    } else {
      Then(u, u, BuildRepo);
      var l1 := l.(repos := l.repos + {LocalKey(e)});
      var v := World(server, l1, Replaying(todo, n, RepoBuilt));
      if o.TypeRowFails? {
        Then(u, v, GiveUp);
      } else {
        Then(u, v, BuildTypeRow);
        var w := World(server, l1.(typed := l1.typed + {LocalKey(e)}), Replaying(todo, n, RowBuilt));
        Then(u, w, if o.Fine? then Complete else GiveUp);
      }
    }
  }

  lemma {:induction false} ReplayReaches(server: seq<Entry>, l: Local, todo: seq<Entry>, n: nat, outcome: Entry -> Outcome)
    requires n <= |todo|
    ensures Reaches(World(server, l, Replaying(todo, 0, Begin)),
                    World(server, ReplayAll(l, todo, n, outcome), Replaying(todo, n, Begin)))
  {
    var u := World(server, l, Replaying(todo, 0, Begin));
    if n == 0 {
      Here(u);
    } else {
      ReplayReaches(server, l, todo, n - 1, outcome);
      var l1 := ReplayAll(l, todo, n - 1, outcome);
      EntryReaches(server, l1, todo, n - 1, outcome(todo[n - 1]));
      hide Reaches;
      Trans(u, World(server, l1, Replaying(todo, n - 1, Begin)), World(server, ReplayAll(l, todo, n, outcome), Replaying(todo, n, Begin)));
    }
  }

  // So everything proved of runs holds of sequences of calls: a version marked complete
  // is built, a lost version stays lost, and so on.
  lemma CallIsRun(server: seq<Entry>, l: Local, q: Queries, pullOk: nat -> bool, createOk: Entry -> bool, outcome: Entry -> Outcome)
    requires Ascending(server, Version)
    ensures Reaches(World(server, l, Idle), World(server, AfterCall(server, l, q, pullOk, createOk, outcome), Idle))
  {
    var u := World(server, l, Idle);
    Here(u);
    if !q.latestOk {
      return;
    }
    Then(u, u, Start);
    hide Reaches, Received, Fresh;
    var a := World(server, l, Asking(Latest(l.log)));
    var r := Received(server, Latest(l.log), 0, pullOk);
    var pulled := Logged(l, Fresh(r.0, createOk));
    PullReaches(server, l, Latest(l.log), 0, pullOk, createOk);
    PulledTrans(u, a, server, pulled, r.1);
    if r.1 {
      var cursor, page: seq<Entry> :| |page| < PAGE && Reaches(u, World(server, pulled, Storing(cursor, page, |page|)));
      if !q.workOk {
        Then(u, World(server, pulled, Storing(cursor, page, |page|)), Stop);
        return;
      }
      var todo := WorkList(pulled.log, |pulled.log|);
      WorkListIs(pulled.log);
      Then(u, World(server, pulled, Storing(cursor, page, |page|)), WorkListArrives(todo));
      ReplayReaches(server, pulled, todo, |todo|, outcome);
      var t := World(server, ReplayAll(pulled, todo, |todo|, outcome), Replaying(todo, |todo|, Begin));
      Trans(u, World(server, pulled, Replaying(todo, 0, Begin)), t);
      Then(u, t, ReplayOver);
    }
  }
}
