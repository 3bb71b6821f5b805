// Gaps over runs of the sync machine (SyncAsClient, component/multi_sync.go): versions
// arrive at the server meanwhile, and calls fail, stop and start again anywhere.
module SyncGapRuns {
  import opened Keyset
  import opened MultiSync
  import opened SyncGaps

  // Whether the call that is under way has failed to store a version.
  function Skipped(step: Step, before: bool): bool {
    if step == Start then false else if step == CreateRow(false) then true else before
  }

  // No version is stored in a call that failed to store one before it.
  ghost predicate NeverStoresPast(w: World, steps: seq<Step>, skipped: bool)
    requires IsRun(w, steps)
    decreases |steps|
  {
    steps == [] ||
    (!(steps[0] == CreateRow(true) && skipped) && NeverStoresPast(Apply(w, steps[0]), steps[1..], Skipped(steps[0], skipped)))
  }

  // ---------------------------------------------------------------- what holds within a call

  // Every version of the server up to v is stored.
  ghost predicate Covered(server: seq<Entry>, log: seq<Row>, v: int) {
    forall k | 0 <= k < |server| && server[k].version <= v :: Stored(log, server[k].version)
  }

  // Some version of the server up to v is missing, and lies above all that is stored.
  ghost predicate Missing(server: seq<Entry>, log: seq<Row>, v: int) {
    exists k :: 0 <= k < |server| && Latest(log) < server[k].version <= v && !Stored(log, server[k].version)
  }

  // A version the server has reached.
  ghost predicate HasReached(server: seq<Entry>, v: int) { v <= 0 || exists k :: 0 <= k < |server| && v <= server[k].version }

  // The last version gone through, stored or not.
  function Passed(cursor: int, page: seq<Entry>, next: nat): int
    requires next <= |page|
  {
    if next == 0 then cursor else page[next - 1].version
  }

  // The page is what follows the cursor in the server's log.
  ghost predicate Follows(server: seq<Entry>, cursor: int, page: seq<Entry>) {
    && (forall k | 0 <= k < |page| :: page[k].version > cursor)
    && (page != [] ==> forall k | 0 <= k < |server| && cursor < server[k].version <= page[|page| - 1].version :: server[k] in page)
  }

  ghost predicate UpToHere(server: seq<Entry>, log: seq<Row>, v: int, skipped: bool) {
    && HasReached(server, v)
    && if skipped then Missing(server, log, v) else Covered(server, log, v)
  }

  ghost predicate WhileStoring(server: seq<Entry>, log: seq<Row>, cursor: int, page: seq<Entry>, next: nat, skipped: bool) {
    && next <= |page| && Follows(server, cursor, page)
    && UpToHere(server, log, Passed(cursor, page, next), skipped)
  }

  ghost predicate GapInv(w: World, skipped: bool) {
    && Gapless(w.server, w.local.log)
    && match w.phase
       case Asking(cursor) => UpToHere(w.server, w.local.log, cursor, skipped)
       case Storing(cursor, page, next) => WhileStoring(w.server, w.local.log, cursor, page, next, skipped)
       case _ => true
  }

  // ---------------------------------------------------------------- steps

  lemma CoveredGapless(server: seq<Entry>, log: seq<Row>)
    requires Covered(server, log, Latest(log))
    ensures Gapless(server, log)
  {}

  // What is stored so far lies below the next entry of the page.
  lemma NextIsNew(w: World)
    requires Inv(w) && w.phase.Storing? && w.phase.next < |w.phase.page|
    ensures var e := w.phase.page[w.phase.next]; e in w.server && e.version > Latest(w.local.log) && !Stored(w.local.log, e.version)
  {}

  lemma CoveredNext(server: seq<Entry>, log: seq<Row>, cursor: int, page: seq<Entry>, next: nat)
    requires next < |page| && Ascending(page, Version) && Follows(server, cursor, page)
    requires Covered(server, log, Passed(cursor, page, next))
    ensures Covered(server, log + [Row(page[next], false)], page[next].version)
  {
    var log' := log + [Row(page[next], false)];
    assert Version(page[next]) <= page[|page| - 1].version;
    forall k | 0 <= k < |server| && server[k].version <= page[next].version ensures Stored(log', server[k].version) {
      StoredEither(log, [Row(page[next], false)], server[k].version);
      assert [Row(page[next], false)][0].entry == page[next];
      InPage(server, cursor, page, next, k);
    }
  }

  lemma InPage(server: seq<Entry>, cursor: int, page: seq<Entry>, next: nat, k: nat)
    requires next < |page| && k < |server| && Ascending(page, Version) && Follows(server, cursor, page)
    requires server[k].version <= page[next].version
    ensures server[k].version <= Passed(cursor, page, next) || server[k].version == page[next].version
  {
    assert Version(page[next]) <= Version(page[|page| - 1]);
    if server[k].version > cursor {
      var i :| 0 <= i < |page| && page[i] == server[k];
      assert Version(page[i]) == server[k].version;
      assert next > 0 ==> Version(page[next - 1]) < Version(page[next]);
    }
  }

  lemma StoreStep(w: World)
    requires Inv(w) && GapInv(w, false) && Enabled(w, CreateRow(true))
    ensures GapInv(Apply(w, CreateRow(true)), false)
  {
    hide *;
    StoringFacts(w, true, false);
    var p, l := w.phase, w.local;
    NextIsNew(w);
    StoreValues(w.server, l.log, p.cursor, p.page, p.next);
    GapInvStoring(w.server, l.(log := l.log + [Row(p.page[p.next], false)]), p.cursor, p.page, p.next + 1, false);
  }

  lemma StoringFacts(w: World, ok: bool, skipped: bool)
    requires Inv(w) && GapInv(w, skipped) && Enabled(w, CreateRow(ok))
    ensures var p, l := w.phase, w.local;
            && p.Storing? && p.next < |p.page| && Ascending(p.page, Version)
            && WhileStoring(w.server, l.log, p.cursor, p.page, p.next, skipped) && Gapless(w.server, l.log)
            && Apply(w, CreateRow(ok)) == World(w.server, if ok then l.(log := l.log + [Row(p.page[p.next], false)]) else l,
                                                Storing(p.cursor, p.page, p.next + 1))
  {
    hide WhileStoring, Gapless;
  }

  lemma GapInvStoring(server: seq<Entry>, l: Local, cursor: int, page: seq<Entry>, next: nat, skipped: bool)
    requires Gapless(server, l.log) && WhileStoring(server, l.log, cursor, page, next, skipped)
    ensures GapInv(World(server, l, Storing(cursor, page, next)), skipped)
  {
    hide WhileStoring, Gapless;
  }

  lemma StoreValues(server: seq<Entry>, log: seq<Row>, cursor: int, page: seq<Entry>, next: nat)
    requires next < |page| && Ascending(page, Version) && WhileStoring(server, log, cursor, page, next, false)
    requires page[next] in server && page[next].version > Latest(log)
    ensures var log' := log + [Row(page[next], false)];
            WhileStoring(server, log', cursor, page, next + 1, false) && Gapless(server, log')
  {
    var e := page[next];
    assert Follows(server, cursor, page) && Covered(server, log, Passed(cursor, page, next));
    assert Passed(cursor, page, next + 1) == e.version;
    hide *;
    CoveredNext(server, log, cursor, page, next);
    LatestGrows(log, Row(e, false));
    CoveredGapless(server, log + [Row(e, false)]);
    Arrived(server, log + [Row(e, false)], cursor, page, next + 1, e);
  }

  lemma Arrived(server: seq<Entry>, log: seq<Row>, cursor: int, page: seq<Entry>, next: nat, e: Entry)
    requires next <= |page| && Passed(cursor, page, next) == e.version && e in server
    requires Follows(server, cursor, page) && Covered(server, log, e.version)
    ensures WhileStoring(server, log, cursor, page, next, false)
  {
    hide Follows, Covered, Passed;
    var k :| 0 <= k < |server| && server[k] == e;
    assert e.version <= server[k].version;
  }

  // Storing a version after a missing one leaves a gap.
  lemma StorePast(w: World)
    requires Inv(w) && GapInv(w, true) && Enabled(w, CreateRow(true))
    ensures !Gapless(w.server, w.local.log + [Row(w.phase.page[w.phase.next], false)])
  {
    var p, log := w.phase, w.local.log;
    var row := Row(p.page[p.next], false);
    var k :| 0 <= k < |w.server| && Latest(log) < w.server[k].version <= Passed(p.cursor, p.page, p.next) && !Stored(log, w.server[k].version);
    PassedBelow(w.server, p.cursor, p.page, p.next);
    StoredEither(log, [row], w.server[k].version);
    LatestGrows(log, row);
    hide Latest, Inv;
    assert Lost(log + [row], w.server[k].version);
  }

  lemma PassedBelow(server: seq<Entry>, cursor: int, page: seq<Entry>, next: nat)
    requires next < |page| && Ascending(page, Version) && Follows(server, cursor, page)
    ensures Passed(cursor, page, next) < page[next].version
  {
    assert next > 0 ==> Version(page[next - 1]) < Version(page[next]);
  }

  lemma SkipStep(w: World, skipped: bool)
    requires Inv(w) && GapInv(w, skipped) && Enabled(w, CreateRow(false))
    ensures GapInv(Apply(w, CreateRow(false)), true)
  {
    hide *;
    StoringFacts(w, false, skipped);
    var p, l := w.phase, w.local;
    NextIsNew(w);
    MissingNow(w.server, l.log, p.cursor, p.page, p.next, skipped);
    GapInvStoring(w.server, l, p.cursor, p.page, p.next + 1, true);
  }

  lemma MissingNow(server: seq<Entry>, log: seq<Row>, cursor: int, page: seq<Entry>, next: nat, skipped: bool)
    requires next < |page| && page[next] in server && WhileStoring(server, log, cursor, page, next, skipped)
    requires page[next].version > Latest(log) && !Stored(log, page[next].version)
    ensures WhileStoring(server, log, cursor, page, next + 1, true)
  {
    hide Latest, Stored, Follows;
    var e := page[next];
    var k :| 0 <= k < |server| && server[k] == e;
    assert e.version <= server[k].version && Latest(log) < server[k].version && !Stored(log, server[k].version);
  }

  lemma PageStep(w: World, skipped: bool)
    requires Inv(w) && GapInv(w, skipped) && Enabled(w, PageArrives)
    ensures GapInv(Apply(w, PageArrives), skipped)
  {
    PageFollows(w.server, w.phase.cursor);
  }

  lemma PageFollows(server: seq<Entry>, cursor: int)
    requires Ascending(server, Version)
    ensures Follows(server, cursor, Page(server, Version, cursor, PAGE))
  {
    var above, page := Above(server, Version, cursor), Page(server, Version, cursor, PAGE);
    AboveMembers(server, Version, cursor);
    AboveAscending(server, Version, cursor);
    hide Above;
    forall k | 0 <= k < |page| ensures page[k].version > cursor { assert above[k] in above; }
    if page != [] {
      forall k | 0 <= k < |server| && cursor < server[k].version <= page[|page| - 1].version ensures server[k] in page {
        var i :| 0 <= i < |above| && above[i] == server[k];
        assert Version(above[i]) <= Version(above[|page| - 1]);
        assert page[i] == above[i];
      }
    }
  }

  lemma StartStep(w: World, skipped: bool)
    requires Inv(w) && GapInv(w, skipped) && Enabled(w, Start)
    ensures GapInv(Apply(w, Start), false)
  {
    forall k | 0 <= k < |w.server| && w.server[k].version <= Latest(w.local.log) ensures Stored(w.local.log, w.server[k].version) {
      LowIsStored(w.server, w.local, w.server[k]);
    }
    LatestReached(w.server, w.local);
  }

  lemma LatestReached(server: seq<Entry>, l: Local)
    requires LocalInv(server, l)
    ensures HasReached(server, Latest(l.log))
  {
    if Latest(l.log) > 0 {
      var i :| 0 <= i < |l.log| && l.log[i].entry.version == Latest(l.log);
      var k :| 0 <= k < |server| && server[k] == l.log[i].entry;
      assert Latest(l.log) <= server[k].version;
    }
  }

  lemma ServerStep(w: World, skipped: bool, e: Entry)
    requires Inv(w) && GapInv(w, skipped) && Enabled(w, ServerAppends(e))
    ensures GapInv(Apply(w, ServerAppends(e)), skipped)
  {
    var server, log := w.server + [e], w.local.log;
    LatestReached(w.server, w.local);
    NewIsHigher(w.server, e, Latest(log));
    hide Latest;
    assert !Lost(log, e.version);
    assert Gapless(server, log);
    match w.phase
    case Asking(cursor) => UpToHereGrows(w.server, log, cursor, skipped, e);
    case Storing(cursor, page, next) =>
      UpToHereGrows(w.server, log, Passed(cursor, page, next), skipped, e);
      FollowsGrows(w, e);
      assert WhileStoring(server, log, cursor, page, next, skipped);
    case _ =>
  }

  lemma NewIsHigher(server: seq<Entry>, e: Entry, v: int)
    requires HasReached(server, v) && e.version > 0 && forall i | 0 <= i < |server| :: server[i].version < e.version
    ensures v < e.version
  {}

  lemma UpToHereGrows(server: seq<Entry>, log: seq<Row>, v: int, skipped: bool, e: Entry)
    requires UpToHere(server, log, v, skipped) && e.version > 0 && forall i | 0 <= i < |server| :: server[i].version < e.version
    ensures UpToHere(server + [e], log, v, skipped)
  {
    NewIsHigher(server, e, v);
    hide Latest, Stored;
    var more := server + [e];
    assert forall k | 0 <= k < |server| :: more[k] == server[k];
    if v > 0 {
      var k :| 0 <= k < |server| && v <= server[k].version;
      assert v <= more[k].version;
    }
    if skipped {
      var k :| 0 <= k < |server| && Latest(log) < server[k].version <= v && !Stored(log, server[k].version);
      assert Latest(log) < more[k].version <= v && !Stored(log, more[k].version);
    }
  }

  lemma FollowsGrows(w: World, e: Entry)
    requires Inv(w) && w.phase.Storing? && Enabled(w, ServerAppends(e)) && Follows(w.server, w.phase.cursor, w.phase.page)
    ensures Follows(w.server + [e], w.phase.cursor, w.phase.page)
  {
    var page := w.phase.page;
    if page != [] {
      assert page[|page| - 1] in w.server;
    }
  }

  lemma GapStep(w: World, step: Step, skipped: bool)
    requires Inv(w) && GapInv(w, skipped) && Enabled(w, step) && !(step == CreateRow(true) && skipped)
    ensures GapInv(Apply(w, step), Skipped(step, skipped))
  {
    assert step.Start? ==> !Skipped(step, skipped);
    assert step == CreateRow(false) ==> Skipped(step, skipped);
    assert !step.Start? && step != CreateRow(false) ==> Skipped(step, skipped) == skipped;
    hide *;
    match step
    case ServerAppends(e) => ServerStep(w, skipped, e);
    case Start => StartStep(w, skipped);
    case PageArrives => PageStep(w, skipped);
    case CreateRow(ok) => if ok { StoreStep(w); } else { SkipStep(w, skipped); }
    case _ => OtherStep(w, step, skipped);
  }

  lemma OtherStep(w: World, step: Step, skipped: bool)
    requires GapInv(w, skipped) && Enabled(w, step)
    requires !step.ServerAppends? && !step.Start? && !step.PageArrives? && !step.CreateRow?
    ensures GapInv(Apply(w, step), Skipped(step, skipped))
  {
    hide UpToHere, Follows;
    if step.Complete? {
      GaplessSame(w.server, w.local.log, CompleteUpTo(w.local.log, w.phase.todo[w.phase.next]));
    }
    hide Gapless, IsWorkList;
  }

  // ---------------------------------------------------------------- runs

  lemma GapKept(w: World, steps: seq<Step>)
    requires Inv(w) && IsRun(w, steps) && !Gapless(w.server, w.local.log)
    ensures !Gapless(End(w, steps).server, End(w, steps).local.log)
  {
    var k :| 0 <= k < |w.server| && Lost(w.local.log, w.server[k].version);
    LostForever(w, steps, w.server[k].version);
    ServerGrows(w, steps);
    assert End(w, steps).server[k] == w.server[k];
  }

  lemma {:induction false} RunGap(w: World, steps: seq<Step>, skipped: bool)
    requires Inv(w) && GapInv(w, skipped) && IsRun(w, steps)
    ensures Gapless(End(w, steps).server, End(w, steps).local.log) <==> NeverStoresPast(w, steps, skipped)
    decreases |steps|
  {
    if steps != [] {
      StepInv(w, steps[0]);
      if steps[0] == CreateRow(true) && skipped {
        StorePast(w);
        GapKept(Apply(w, steps[0]), steps[1..]);
      } else {
        GapStep(w, steps[0], skipped);
        RunGap(Apply(w, steps[0]), steps[1..], Skipped(steps[0], skipped));
      }
    }
  }

  // Between calls and without a gap: after any run, with the server growing, with faults
  // and stops anywhere, the log still has no gap exactly when no call of the run stored a
  // version after failing to store one.
  lemma RunGapIff(w: World, steps: seq<Step>)
    requires Inv(w) && w.phase == Idle && Gapless(w.server, w.local.log) && IsRun(w, steps)
    ensures Gapless(End(w, steps).server, End(w, steps).local.log) <==> NeverStoresPast(w, steps, false)
  {
    RunGap(w, steps, false);
  }
}
