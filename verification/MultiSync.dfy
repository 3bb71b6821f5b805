// Multi-source sync (component/multi_sync.go): the client pulls the server's version log
// by cursor into its own, then replays the incomplete entries and marks them complete.
// The stores appear as sequences and sets; any step may fail, and the process may stop
// anywhere and start again.
module MultiSync {
  import opened Keyset

  const PAGE := 100

  // Other stands for the repository types the replay does not support.
  datatype Kind = Model | Dataset | Prompt | MCPServer | Skill | Other

  datatype Entry = Entry(version: int, source: int, path: string, kind: Kind)

  datatype Row = Row(entry: Entry, completed: bool)

  // A local repository: its type and its path below the prefixed namespace.
  datatype Key = Key(kind: Kind, path: string)

  // What the client's database holds: the version log, the repositories and the rows of
  // the type tables (models, datasets, ...).
  datatype Local = Local(log: seq<Row>, repos: set<Key>, typed: set<Key>)

  function Version(e: Entry): int { e.version }

  function RowVersion(r: Row): int { r.entry.version }

  function SourcePrefix(source: int): string {
    if source == 0 then "CSG_" else if source == 1 then "HF_" else ""
  }

  function LocalKey(e: Entry): Key { Key(e.kind, SourcePrefix(e.source) + e.path) }

  predicate SameGroup(a: Entry, b: Entry) { a.source == b.source && a.path == b.path && a.kind == b.kind }

  function Entries(log: seq<Row>): (es: seq<Entry>)
    ensures |es| == |log| && forall i | 0 <= i < |log| :: es[i] == log[i].entry
  {
    seq(|log|, i requires 0 <= i < |log| => log[i].entry)
  }

  // MultiSyncStore.GetLatest: the highest version, or 0 in an empty table.
  function Latest(log: seq<Row>): (v: int)
    ensures forall i | 0 <= i < |log| :: log[i].entry.version <= v
    ensures v == 0 || exists i :: 0 <= i < |log| && log[i].entry.version == v
    ensures v >= 0
  {
    if log == [] then 0
    else
      var v := Latest(log[..|log| - 1]);
      if log[|log| - 1].entry.version > v then log[|log| - 1].entry.version else v
  }

  // SyncVersionStore.Complete: every version up to e's of e's repository.
  function CompleteUpTo(log: seq<Row>, e: Entry): (r: seq<Row>)
    ensures |r| == |log|
    ensures forall i | 0 <= i < |log| ::
              r[i] == Row(log[i].entry, log[i].completed || (SameGroup(log[i].entry, e) && log[i].entry.version <= e.version))
  {
    seq(|log|, i requires 0 <= i < |log| =>
      Row(log[i].entry, log[i].completed || (SameGroup(log[i].entry, e) && log[i].entry.version <= e.version)))
  }

  // ---------------------------------------------------------------- the work list

  // Some incomplete row of e's repository has a higher version.
  predicate Superseded(log: seq<Row>, e: Entry) {
    exists i :: 0 <= i < |log| && !log[i].completed && SameGroup(log[i].entry, e) && log[i].entry.version > e.version
  }

  // What GetNotCompletedDistinct answers: for every repository with an incomplete row the
  // one with the highest version. Its order is not fixed here.
  ghost predicate IsWorkList(log: seq<Row>, todo: seq<Entry>) {
    && (forall k | 0 <= k < |todo| :: Row(todo[k], false) in log)
    && (forall i | 0 <= i < |log| && !log[i].completed ::
          exists k :: 0 <= k < |todo| && SameGroup(todo[k], log[i].entry) && log[i].entry.version <= todo[k].version)
  }

  function WorkList(log: seq<Row>, n: nat): (todo: seq<Entry>)
    requires n <= |log|
  {
    if n == 0 then []
    else
      var row := log[n - 1];
      WorkList(log, n - 1) + if row.completed || Superseded(log, row.entry) then [] else [row.entry]
  }

  lemma {:induction false} WorkListFrom(log: seq<Row>, n: nat)
    requires n <= |log|
    ensures forall k | 0 <= k < |WorkList(log, n)| :: Row(WorkList(log, n)[k], false) in log
    ensures forall i | 0 <= i < n && !log[i].completed && !Superseded(log, log[i].entry) :: log[i].entry in WorkList(log, n)
  {
    if n > 0 {
      WorkListFrom(log, n - 1);
      assert log[n - 1].completed || log[n - 1] == Row(log[n - 1].entry, false);
    }
  }

  // Among the incomplete rows of a repository one is not superseded.
  lemma {:induction false} Newest(log: seq<Row>, i: nat) returns (j: nat)
    requires i < |log| && !log[i].completed
    ensures j < |log| && !log[j].completed && SameGroup(log[j].entry, log[i].entry)
    ensures log[i].entry.version <= log[j].entry.version && !Superseded(log, log[j].entry)
    decreases Latest(log) - log[i].entry.version
  {
    if Superseded(log, log[i].entry) {
      var k :| 0 <= k < |log| && !log[k].completed && SameGroup(log[k].entry, log[i].entry)
            && log[k].entry.version > log[i].entry.version;
      j := Newest(log, k);
    } else {
      j := i;
    }
  }

  lemma WorkListIs(log: seq<Row>)
    ensures IsWorkList(log, WorkList(log, |log|))
  {
    var todo := WorkList(log, |log|);
    WorkListFrom(log, |log|);
    forall i: nat | i < |log| && !log[i].completed
      ensures exists k :: 0 <= k < |todo| && SameGroup(todo[k], log[i].entry) && log[i].entry.version <= todo[k].version
    {
      var j := Newest(log, i);
      assert log[j].entry in todo;
    }
  }

  // ---------------------------------------------------------------- the machine

  datatype Stage = Begin | RepoBuilt | RowBuilt

  // Asking: about to ask for versions above the cursor. Storing: creating the rows of a
  // page. Replaying: working off the work list.
  datatype Phase =
    | Idle
    | Asking(cursor: int)
    | Storing(cursor: int, page: seq<Entry>, next: nat)
    | Replaying(todo: seq<Entry>, next: nat, stage: Stage)

  datatype World = World(server: seq<Entry>, local: Local, phase: Phase)

  datatype Step =
    | ServerAppends(e: Entry)
    | Start
    | PageArrives
    | CreateRow(ok: bool)
    | PageStored
    | WorkListArrives(todo: seq<Entry>)
    | BuildRepo
    | BuildTypeRow
    | Complete
    | GiveUp
    | ReplayOver
    | Stop

  // CreateRow(false), GiveUp and Stop are the faults: a version that could not be stored
  // is skipped, an entry that could not be built or marked is left for the next run, and
  // an error or the end of the process ends the run.
  ghost predicate Enabled(w: World, step: Step) {
    var p := w.phase;
    match step
    case ServerAppends(e) => e.version > 0 && forall i | 0 <= i < |w.server| :: w.server[i].version < e.version
    case Start => p == Idle
    case PageArrives => p.Asking?
    case CreateRow(ok) => p.Storing? && p.next < |p.page|
    case PageStored => p.Storing? && p.next == |p.page|
    case WorkListArrives(todo) => p.Storing? && p.next == |p.page| < PAGE && IsWorkList(w.local.log, todo)
    case BuildRepo => p.Replaying? && p.next < |p.todo| && p.stage == Begin && p.todo[p.next].kind != Other
    case BuildTypeRow => p.Replaying? && p.next < |p.todo| && p.stage == RepoBuilt
    case Complete => p.Replaying? && p.next < |p.todo| && p.stage == RowBuilt
    case GiveUp => p.Replaying? && p.next < |p.todo|
    case ReplayOver => p.Replaying? && p.next == |p.todo|
    case Stop => true
  }

  // The cursor after a page: its last version, if it has one.
  function NextCursor(cursor: int, page: seq<Entry>): int {
    if page == [] then cursor else page[|page| - 1].version
  }

  function Apply(w: World, step: Step): World
    requires Enabled(w, step)
  {
    var p, l := w.phase, w.local;
    match step
    case ServerAppends(e) => w.(server := w.server + [e])
    case Start => w.(phase := Asking(Latest(l.log)))
    case PageArrives => w.(phase := Storing(p.cursor, Page(w.server, Version, p.cursor, PAGE), 0))
    case CreateRow(ok) =>
      w.(local := if ok then l.(log := l.log + [Row(p.page[p.next], false)]) else l,
         phase := Storing(p.cursor, p.page, p.next + 1))
    case PageStored =>
      if |p.page| == PAGE then w.(phase := Asking(NextCursor(p.cursor, p.page))) else w
    case WorkListArrives(todo) => w.(phase := Replaying(todo, 0, Begin))
    case BuildRepo => w.(local := l.(repos := l.repos + {LocalKey(p.todo[p.next])}), phase := Replaying(p.todo, p.next, RepoBuilt))
    case BuildTypeRow => w.(local := l.(typed := l.typed + {LocalKey(p.todo[p.next])}), phase := Replaying(p.todo, p.next, RowBuilt))
    case Complete =>
      w.(local := l.(log := CompleteUpTo(l.log, p.todo[p.next])), phase := Replaying(p.todo, p.next + 1, Begin))
    case GiveUp => w.(phase := Replaying(p.todo, p.next + 1, Begin))
    case ReplayOver => w.(phase := Idle)
    case Stop => w.(phase := Idle)
  }

  ghost predicate IsRun(w: World, steps: seq<Step>)
    decreases |steps|
  {
    steps == [] || (Enabled(w, steps[0]) && IsRun(Apply(w, steps[0]), steps[1..]))
  }

  ghost function End(w: World, steps: seq<Step>): World
    requires IsRun(w, steps)
    decreases |steps|
  {
    if steps == [] then w else End(Apply(w, steps[0]), steps[1..])
  }

  // ---------------------------------------------------------------- invariant

  ghost predicate Built(l: Local, e: Entry) { LocalKey(e) in l.repos && LocalKey(e) in l.typed }

  // The local log is an ascending part of the server's, and what is complete is built.
  ghost predicate LocalInv(server: seq<Entry>, l: Local) {
    && Ascending(server, Version)
    && (forall i | 0 <= i < |server| :: server[i].version > 0)
    && Ascending(l.log, RowVersion)
    && (forall i | 0 <= i < |l.log| :: l.log[i].entry in server)
    && (forall i | 0 <= i < |l.log| && l.log[i].completed :: Built(l, l.log[i].entry))
  }

  // While pulling, the log lies below the cursor, and what is still to store above it.
  ghost predicate PhaseInv(w: World) {
    var log := w.local.log;
    match w.phase
    case Idle => true
    case Asking(cursor) => forall i | 0 <= i < |log| :: log[i].entry.version <= cursor
    case Storing(cursor, page, next) =>
      && next <= |page| <= PAGE
      && Ascending(page, Version)
      && (forall k | 0 <= k < |page| :: page[k] in w.server)
      && (forall i | 0 <= i < |log| :: log[i].entry.version <= NextCursor(cursor, page))
      && (forall i, k | 0 <= i < |log| && next <= k < |page| :: log[i].entry.version < page[k].version)
    case Replaying(todo, next, stage) =>
      && next <= |todo|
      && (stage != Begin ==> next < |todo| && LocalKey(todo[next]) in w.local.repos)
      && (stage == RowBuilt ==> Built(w.local, todo[next]))
  }

  ghost predicate Inv(w: World) { LocalInv(w.server, w.local) && PhaseInv(w) }

  function Init(): World { World([], Local([], {}, {}), Idle) }

  lemma InitInv()
    ensures Inv(Init())
  {}

  lemma PageFacts(server: seq<Entry>, cursor: int)
    requires Ascending(server, Version)
    ensures var page := Page(server, Version, cursor, PAGE);
            && |page| <= PAGE && Ascending(page, Version)
            && forall k | 0 <= k < |page| :: page[k] in server && page[k].version > cursor
  {
    AboveAscending(server, Version, cursor);
    AboveMembers(server, Version, cursor);
    var above, page := Above(server, Version, cursor), Page(server, Version, cursor, PAGE);
    forall k | 0 <= k < |page| ensures page[k] in above { assert page[k] == above[k]; }
  }

  lemma PageArrivesInv(w: World)
    requires Inv(w) && Enabled(w, PageArrives)
    ensures Inv(Apply(w, PageArrives))
  {
    PageFacts(w.server, w.phase.cursor);
    hide Page;
  }

  lemma CompleteInv(w: World)
    requires Inv(w) && Enabled(w, Complete)
    ensures Inv(Apply(w, Complete))
  {
    var e, log := w.phase.todo[w.phase.next], w.local.log;
    var t := Apply(w, Complete);
    forall i | 0 <= i < |log| && t.local.log[i].completed ensures Built(t.local, log[i].entry) {
      if !log[i].completed {
        assert LocalKey(log[i].entry) == LocalKey(e);
      }
    }
  }

  lemma StepInv(w: World, step: Step)
    requires Inv(w) && Enabled(w, step)
    ensures Inv(Apply(w, step))
  {
    match step
    case PageArrives => PageArrivesInv(w);
    case Complete => CompleteInv(w);
    case CreateRow(ok) => CreateRowInv(w, ok);
    case _ =>
  }

  lemma CreateRowInv(w: World, ok: bool)
    requires Inv(w) && Enabled(w, CreateRow(ok))
    ensures Inv(Apply(w, CreateRow(ok)))
  {}

  // Over any run, with the server growing, with faults and stops anywhere: the local log
  // stays an ascending part of the server's, and what is marked complete is built.
  lemma {:induction false} EveryRunKeepsInv(w: World, steps: seq<Step>)
    requires Inv(w) && IsRun(w, steps)
    ensures Inv(End(w, steps))
    decreases |steps|
  {
    if steps != [] {
      StepInv(w, steps[0]);
      EveryRunKeepsInv(Apply(w, steps[0]), steps[1..]);
    }
  }

  lemma CompletedIsBuilt(w: World, steps: seq<Step>, i: nat)
    requires Inv(w) && IsRun(w, steps) && i < |End(w, steps).local.log|
    ensures var l := End(w, steps).local; l.log[i].completed ==> Built(l, l.log[i].entry)
  {
    EveryRunKeepsInv(w, steps);
  }

  // ---------------------------------------------------------------- lost versions

  predicate Stored(log: seq<Row>, v: int) { exists i :: 0 <= i < |log| && log[i].entry.version == v }

  // The version is not in the log although a higher one is.
  predicate Lost(log: seq<Row>, v: int) { !Stored(log, v) && Latest(log) > v }

  lemma LatestGrows(log: seq<Row>, r: Row)
    ensures Latest(log + [r]) == if r.entry.version > Latest(log) then r.entry.version else Latest(log)
  {
    assert (log + [r])[..|log|] == log;
  }

  lemma LatestSame(log: seq<Row>, log': seq<Row>)
    requires Entries(log) == Entries(log')
    ensures Latest(log) == Latest(log')
  {
    forall i | 0 <= i < |log| ensures log[i].entry == log'[i].entry { assert Entries(log)[i] == Entries(log')[i]; }
  }

  lemma LostAfterCreate(w: World, v: int)
    requires Inv(w) && Enabled(w, CreateRow(true)) && Lost(w.local.log, v) && v > 0
    ensures Lost(Apply(w, CreateRow(true)).local.log, v)
  {
    var log, r := w.local.log, Row(w.phase.page[w.phase.next], false);
    var i :| 0 <= i < |log| && log[i].entry.version == Latest(log);
    assert v < log[i].entry.version < r.entry.version;
    hide *;
    LostAppend(log, r, v);
  }

  lemma LostAppend(log: seq<Row>, r: Row, v: int)
    requires Lost(log, v) && v < r.entry.version
    ensures Lost(log + [r], v)
  {
    LatestGrows(log, r);
    hide Latest;
    assert forall j | 0 <= j < |log| :: (log + [r])[j] == log[j];
  }

  lemma LostAfterComplete(log: seq<Row>, e: Entry, v: int)
    requires Lost(log, v)
    ensures Lost(CompleteUpTo(log, e), v)
  {
    var log' := CompleteUpTo(log, e);
    LatestSame(log, log');
    forall i | 0 <= i < |log'| ensures log'[i].entry.version != v { assert log[i].entry == log'[i].entry; }
  }

  lemma LostStep(w: World, step: Step, v: int)
    requires Inv(w) && Enabled(w, step) && Lost(w.local.log, v) && v > 0
    ensures Lost(Apply(w, step).local.log, v)
  {
    if step == CreateRow(true) {
      LostAfterCreate(w, v);
    } else if step == Complete {
      LostAfterComplete(w.local.log, w.phase.todo[w.phase.next], v);
    }
  }

  // A version that was skipped while a later one was stored never reaches the log, in any
  // later run.
  lemma {:induction false} LostForever(w: World, steps: seq<Step>, v: int)
    requires Inv(w) && IsRun(w, steps) && Lost(w.local.log, v) && v > 0
    ensures Lost(End(w, steps).local.log, v)
    decreases |steps|
  {
    if steps != [] {
      LostStep(w, steps[0], v);
      StepInv(w, steps[0]);
      LostForever(Apply(w, steps[0]), steps[1..], v);
    }
  }

  // Nothing the server has so far is lost.
  ghost predicate Gapless(server: seq<Entry>, log: seq<Row>) {
    forall k | 0 <= k < |server| :: !Lost(log, server[k].version)
  }

  // With a gap the local log is never again equal to the server's.
  lemma GapStays(w: World, steps: seq<Step>)
    requires Inv(w) && IsRun(w, steps) && !Gapless(w.server, w.local.log)
    ensures Entries(End(w, steps).local.log) != End(w, steps).server
  {
    var k :| 0 <= k < |w.server| && Lost(w.local.log, w.server[k].version);
    LostForever(w, steps, w.server[k].version);
    ServerGrows(w, steps);
    var t := End(w, steps);
    assert w.server[k] == t.server[k];
    EntriesStored(t.local.log);
  }

  lemma EntriesStored(log: seq<Row>)
    ensures forall k | 0 <= k < |log| :: Stored(log, Entries(log)[k].version)
  {}

  lemma {:induction false} ServerGrows(w: World, steps: seq<Step>)
    requires IsRun(w, steps)
    ensures w.server <= End(w, steps).server
    decreases |steps|
  {
    if steps != [] {
      ServerGrows(Apply(w, steps[0]), steps[1..]);
    }
  }

  function UpTo(server: seq<Entry>, v: int): seq<Entry> {
    if server == [] || server[0].version > v then [] else [server[0]] + UpTo(server[1..], v)
  }

  lemma AllHigh(server: seq<Entry>, v: int)
    requires server != [] && Ascending(server, Version) && server[0].version > v
    ensures Above(server, Version, v) == server
    ensures forall e | e in server :: e.version > v
  {
    forall i | 0 <= i < |server| ensures Version(server[i]) > v {
      assert i > 0 ==> Version(server[0]) < Version(server[i]);
    }
    AllAbove(server, Version, v);
  }

  // The server's log in two parts: up to a version and above it.
  lemma {:induction false} UpToThenAbove(server: seq<Entry>, v: int)
    requires Ascending(server, Version)
    ensures server == UpTo(server, v) + Above(server, Version, v)
  {
    if server == [] {
    } else if server[0].version > v {
      AllHigh(server, v);
    } else {
      UpToThenAbove(server[1..], v);
      assert server == [server[0]] + server[1..];
    }
  }

  lemma {:induction false} UpToMembers(server: seq<Entry>, v: int)
    requires Ascending(server, Version)
    ensures forall e :: e in UpTo(server, v) <==> e in server && e.version <= v
  {
    if server == [] {
    } else if server[0].version > v {
      AllHigh(server, v);
    } else {
      UpToMembers(server[1..], v);
      assert UpTo(server, v) == [server[0]] + UpTo(server[1..], v);
      hide UpTo, Ascending;
      assert server == [server[0]] + server[1..];
    }
  }

  lemma UpToAscending(server: seq<Entry>, v: int)
    requires Ascending(server, Version)
    ensures Ascending(UpTo(server, v), Version)
  {
    UpToPrefix(server, v);
  }

  lemma {:induction false} UpToPrefix(server: seq<Entry>, v: int)
    ensures |UpTo(server, v)| <= |server| && UpTo(server, v) == server[..|UpTo(server, v)|]
  {
    if server != [] && server[0].version <= v {
      UpToPrefix(server[1..], v);
    }
  }

  lemma LogIsLow(server: seq<Entry>, l: Local, e: Entry)
    requires LocalInv(server, l) && e in Entries(l.log)
    ensures e in server && e.version <= Latest(l.log)
  {
    var i :| 0 <= i < |l.log| && Entries(l.log)[i] == e;
    assert l.log[i].entry in server;
  }

  lemma LowIsLogged(server: seq<Entry>, l: Local, e: Entry)
    requires LocalInv(server, l) && Gapless(server, l.log) && e in server && e.version <= Latest(l.log)
    ensures e in Entries(l.log)
  {
    var log := l.log;
    var k :| 0 <= k < |server| && server[k] == e;
    assert !Lost(log, server[k].version);
    var i :| 0 <= i < |log| && log[i].entry.version == e.version;
    SameVersion(server, e, log[i].entry);
    assert Entries(log)[i] == e;
  }

  // Without a gap the log is the server's up to its latest version.
  lemma GaplessIsPrefix(server: seq<Entry>, l: Local)
    requires LocalInv(server, l) && Gapless(server, l.log)
    ensures server == Entries(l.log) + Above(server, Version, Latest(l.log))
  {
    var v := Latest(l.log);
    UpToThenAbove(server, v);
    UpToAscending(server, v);
    SameMembers(server, l);
    EntriesAscending(l.log);
    hide Above, UpTo, Gapless, Latest, Lost, Ascending, Entries;
    SameElements(UpTo(server, v), Entries(l.log));
  }

  lemma SameMembers(server: seq<Entry>, l: Local)
    requires LocalInv(server, l) && Gapless(server, l.log)
    ensures forall e :: e in UpTo(server, Latest(l.log)) <==> e in Entries(l.log)
  {
    UpToMembers(server, Latest(l.log));
    hide UpTo, Latest, Lost, Entries;
    forall e ensures e in UpTo(server, Latest(l.log)) <==> e in Entries(l.log) {
      if e in Entries(l.log) { LogIsLow(server, l, e); }
      if e in server && e.version <= Latest(l.log) { LowIsLogged(server, l, e); }
    }
  }

  lemma EntriesAscending(log: seq<Row>)
    requires Ascending(log, RowVersion)
    ensures Ascending(Entries(log), Version)
  {
    forall i, j | 0 <= i < j < |log| ensures Version(Entries(log)[i]) < Version(Entries(log)[j]) {
      assert RowVersion(log[i]) < RowVersion(log[j]);
    }
  }

  lemma SameVersion(server: seq<Entry>, a: Entry, b: Entry)
    requires Ascending(server, Version) && a in server && b in server && a.version == b.version
    ensures a == b
  {
    var i :| 0 <= i < |server| && server[i] == a;
    var j :| 0 <= j < |server| && server[j] == b;
    assert Version(server[i]) == Version(server[j]);
  }

  // The first of an ascending sequence is the lowest; what else is in it is in its tail.
  lemma TailMembers(a: seq<Entry>)
    requires a != [] && Ascending(a, Version)
    ensures forall e | e in a :: a[0].version <= e.version
    ensures forall e :: e in a[1..] <==> e in a && e.version != a[0].version
  {
    assert a == [a[0]] + a[1..];
    forall e | e in a ensures a[0].version <= e.version {
      var i :| 0 <= i < |a| && a[i] == e;
      assert i > 0 ==> Version(a[0]) < Version(a[i]);
    }
    forall e | e in a[1..] ensures e.version != a[0].version {
      var i :| 0 <= i < |a[1..]| && a[1..][i] == e;
      assert Version(a[0]) < Version(a[i + 1]);
    }
    forall e | e in a && e.version == a[0].version ensures e == a[0] {
      SameVersion(a, e, a[0]);
    }
  }

  lemma NoMembers(a: seq<Entry>)
    ensures (forall e :: e !in a) ==> a == []
  {
    if a != [] {
      assert a[0] in a;
    }
  }

  // Two ascending sequences with the same elements are the same.
  lemma {:induction false} SameElements(a: seq<Entry>, b: seq<Entry>)
    requires Ascending(a, Version) && Ascending(b, Version)
    requires forall e :: e in a <==> e in b
    ensures a == b
  {
    if a == [] {
      NoMembers(b);
    } else if b == [] {
      NoMembers(a);
    } else {
      TailMembers(a);
      TailMembers(b);
      assert a[0] in b && b[0] in a;
      SameVersion(b, a[0], b[0]);
      SameElements(a[1..], b[1..]);
    }
  }
}
