// File locks for Git LFS (CreateLock, UnLock and VerifyLock, component/git_http.go).
// Finding a lock and creating or removing it are separate store operations, so requests
// interleave between them. The lock table has a unique index on repository and path and
// hands out ascending ids.
module LfsLocks {

  datatype Row = Row(repo: int, path: string, user: int)

  datatype Request =
    | Lock(repo: int, path: string, user: int)
    | Unlock(repo: int, id: int, user: int, force: bool)

  datatype Outcome = Locked(id: int) | AlreadyExists | Removed | NotFound | Forbidden | StoreError

  // Searched: the path was free when looked up. Found: the row was there and may be
  // removed by this caller.
  datatype Phase = Begin | Searched | Found(row: Row) | Finished(outcome: Outcome)

  datatype Thread = Thread(req: Request, phase: Phase)

  datatype State = State(rows: map<int, Row>, nextId: int, threads: seq<Thread>)

  datatype Step =
    | Arrive(req: Request)
    | Search(t: nat)
    | Insert(t: nat)
    | Find(t: nat)
    | Remove(t: nat)
    | Fault(t: nat)

  function Init(): State { State(map[], 0, []) }

  predicate SamePath(row: Row, repo: int, path: string) { row.repo == repo && row.path == path }

  predicate Held(rows: map<int, Row>, repo: int, path: string) {
    exists id :: id in rows && SamePath(rows[id], repo, path)
  }

  predicate InPhase(s: State, t: nat, locking: bool, phase: Phase) {
    t < |s.threads| && s.threads[t].req.Lock? == locking && s.threads[t].phase == phase
  }

  predicate Enabled(s: State, step: Step) {
    match step
    case Arrive(_) => true
    case Search(t) => InPhase(s, t, true, Begin)
    case Insert(t) => InPhase(s, t, true, Searched)
    case Find(t) => InPhase(s, t, false, Begin)
    case Remove(t) => t < |s.threads| && s.threads[t].req.Unlock? && s.threads[t].phase.Found?
    case Fault(t) => t < |s.threads| && !s.threads[t].phase.Finished?
  }

  function Move(s: State, t: nat, phase: Phase): State
    requires t < |s.threads|
  {
    s.(threads := s.threads[t := Thread(s.threads[t].req, phase)])
  }

  // A failed insert is reported as AlreadyExists, whatever the store's error was.
  function FaultOutcome(th: Thread): Outcome {
    if th.req.Lock? && th.phase == Searched then AlreadyExists else StoreError
  }

  function Apply(s: State, step: Step): State
    requires Enabled(s, step)
  {
    match step
    case Arrive(req) => s.(threads := s.threads + [Thread(req, Begin)])
    case Search(t) =>
      var req := s.threads[t].req;
      Move(s, t, if Held(s.rows, req.repo, req.path) then Finished(AlreadyExists) else Searched)
    case Insert(t) =>
      var req := s.threads[t].req;
      if Held(s.rows, req.repo, req.path) then Move(s, t, Finished(AlreadyExists))
      else
        Move(s, t, Finished(Locked(s.nextId)))
          .(rows := s.rows[s.nextId := Row(req.repo, req.path, req.user)], nextId := s.nextId + 1)
    case Find(t) =>
      var req := s.threads[t].req;
      if req.id !in s.rows then Move(s, t, Finished(NotFound))
      else if !req.force && s.rows[req.id].user != req.user then Move(s, t, Finished(Forbidden))
      else Move(s, t, Found(s.rows[req.id]))
    case Remove(t) => Move(s, t, Finished(Removed)).(rows := s.rows - {s.threads[t].req.id})
    case Fault(t) => Move(s, t, Finished(FaultOutcome(s.threads[t])))
  }

  predicate IsRun(s: State, steps: seq<Step>)
    decreases |steps|
  {
    steps == [] || (Enabled(s, steps[0]) && IsRun(Apply(s, steps[0]), steps[1..]))
  }

  function End(s: State, steps: seq<Step>): State
    requires IsRun(s, steps)
    decreases |steps|
  {
    if steps == [] then s else End(Apply(s, steps[0]), steps[1..])
  }

  // ---------------------------------------------------------------- mutual exclusion

  // Ids are handed out once, a path has one row, and a row found for removal is still the
  // row of that id, if the id has one.
  ghost predicate Inv(s: State) {
    && (forall id | id in s.rows :: id < s.nextId)
    && (forall i, j | i in s.rows && j in s.rows && SamePath(s.rows[i], s.rows[j].repo, s.rows[j].path) :: i == j)
    && (forall t: nat | t < |s.threads| && s.threads[t].phase.Found? ::
          var th := s.threads[t];
          && th.req.Unlock? && th.req.id < s.nextId
          && (th.req.force || th.phase.row.user == th.req.user)
          && (th.req.id in s.rows ==> s.rows[th.req.id] == th.phase.row))
  }

  lemma InitInv()
    ensures Inv(Init())
  {}

  lemma StepInv(s: State, step: Step)
    requires Inv(s) && Enabled(s, step)
    ensures Inv(Apply(s, step))
  {}

  // From an empty table a path never has two locks, whatever is interleaved and fails.
  lemma OneLockAPath(steps: seq<Step>, i: int, j: int)
    requires IsRun(Init(), steps)
    requires i in End(Init(), steps).rows && j in End(Init(), steps).rows
    requires var rows := End(Init(), steps).rows; SamePath(rows[i], rows[j].repo, rows[j].path)
    ensures i == j
  {
    EveryRunKeepsInv(Init(), steps);
  }

  // In every interleaving of locking and unlocking, with store faults anywhere, a path
  // never has two locks.
  lemma {:induction false} EveryRunKeepsInv(s: State, steps: seq<Step>)
    requires Inv(s) && IsRun(s, steps)
    ensures Inv(End(s, steps))
    decreases |steps|
  {
    if steps != [] {
      StepInv(s, steps[0]);
      EveryRunKeepsInv(Apply(s, steps[0]), steps[1..]);
    }
  }

  // However late the removal comes after the check, an unforced one takes away at most
  // the caller's own row and leaves every other row alone.
  lemma UnforcedRemovesOwn(s: State, steps: seq<Step>, t: nat)
    requires Inv(s) && IsRun(s, steps)
    requires Enabled(End(s, steps), Remove(t)) && !End(s, steps).threads[t].req.force
    ensures var u := End(s, steps);
            var req := u.threads[t].req;
            && (req.id in u.rows ==> u.rows[req.id].user == req.user)
            && Apply(u, Remove(t)).rows == map id | id in u.rows && id != req.id :: u.rows[id]
  {
    EveryRunKeepsInv(s, steps);
  }

  // ---------------------------------------------------------------- races

  // Steps of a race: lock requests arrive and are served; no unlocking, no store fault.
  predicate IsRaceStep(step: Step) {
    match step
    case Arrive(req) => req.Lock?
    case Search(_) => true
    case Insert(_) => true
    case _ => false
  }

  predicate IsRace(steps: seq<Step>) { forall i | 0 <= i < |steps| :: IsRaceStep(steps[i]) }

  // Thread t got the lock with this id.
  predicate Winner(s: State, t: nat, id: int) { t < |s.threads| && s.threads[t].phase == Finished(Locked(id)) }

  predicate Won(s: State, t: nat) { t < |s.threads| && s.threads[t].phase.Finished? && s.threads[t].phase.outcome.Locked? }

  predicate On(s: State, t: nat, repo: int, path: string) {
    t < |s.threads| && s.threads[t].req.Lock? && s.threads[t].req.repo == repo && s.threads[t].req.path == path
  }

  // A request that got no lock was refused, and its path is held.
  predicate Settled(rows: map<int, Row>, th: Thread) {
    th.req.Lock? && !th.phase.Found? &&
    (th.phase.Finished? ==> th.phase.outcome.Locked? ||
                            (th.phase.outcome == AlreadyExists && Held(rows, th.req.repo, th.req.path)))
  }

  // Against the rows at the start: every new row is one winner's.
  ghost predicate RaceInv(rows0: map<int, Row>, s: State) {
    && (forall t: nat | t < |s.threads| :: Settled(s.rows, s.threads[t]))
    && (forall id | id in s.rows && id !in rows0 :: exists t: nat :: Winner(s, t, id))
    && (forall t: nat, id | Winner(s, t, id) ::
          id in s.rows && id !in rows0 && SamePath(s.rows[id], s.threads[t].req.repo, s.threads[t].req.path))
    && (forall t: nat, u: nat, id | Winner(s, t, id) && Winner(s, u, id) :: t == u)
    && (forall id | id in rows0 :: id < s.nextId)
  }

  lemma InsertKeepsHeld(rows: map<int, Row>, id: int, row: Row, repo: int, path: string)
    requires id !in rows
    ensures Held(rows, repo, path) ==> Held(rows[id := row], repo, path)
    ensures Held(rows[id := row], row.repo, row.path)
  {
    var rows' := rows[id := row];
    assert id in rows' && SamePath(rows'[id], row.repo, row.path);
    if Held(rows, repo, path) {
      var k :| k in rows && SamePath(rows[k], repo, path);
      assert k in rows' && rows'[k] == rows[k];
    }
  }

  lemma RaceInsert(rows0: map<int, Row>, s: State, t: nat)
    requires Inv(s) && RaceInv(rows0, s) && Enabled(s, Insert(t))
    requires !Held(s.rows, s.threads[t].req.repo, s.threads[t].req.path)
    ensures RaceInv(rows0, Apply(s, Insert(t)))
  {
    var u, id := Apply(s, Insert(t)), s.nextId;
    forall w: nat, k ensures Winner(u, w, k) <==> Winner(s, w, k) || (w == t && k == id) {}
    forall w: nat | w < |u.threads| ensures Settled(u.rows, u.threads[w]) {
      InsertKeepsHeld(s.rows, id, u.rows[id], u.threads[w].req.repo, u.threads[w].req.path);
      assert Settled(s.rows, s.threads[w]);
    }
    hide Held, Settled;
    forall k | k in u.rows && k !in rows0 ensures exists w: nat :: Winner(u, w, k) {
      if k == id {
        assert Winner(u, t, id);
      } else {
        var w: nat :| Winner(s, w, k);
        assert Winner(u, w, k);
      }
    }
  }

  // A step that only moves thread t, to a phase that settles it if it ends there.
  lemma RaceMove(rows0: map<int, Row>, s: State, t: nat, phase: Phase)
    requires RaceInv(rows0, s) && t < |s.threads| && !s.threads[t].phase.Finished?
    requires Settled(s.rows, Thread(s.threads[t].req, phase)) && (phase.Finished? ==> !phase.outcome.Locked?)
    ensures RaceInv(rows0, Move(s, t, phase))
  {
    var u := Move(s, t, phase);
    forall w: nat, k ensures Winner(u, w, k) <==> Winner(s, w, k) {}
    forall w: nat | w < |u.threads| ensures Settled(u.rows, u.threads[w]) { assert Settled(s.rows, s.threads[w]); }
    hide Held, Settled;
    forall k | k in u.rows && k !in rows0 ensures exists w: nat :: Winner(u, w, k) {
      var w: nat :| Winner(s, w, k);
      assert Winner(u, w, k);
    }
  }

  lemma RaceArrive(rows0: map<int, Row>, s: State, req: Request)
    requires RaceInv(rows0, s) && req.Lock?
    ensures RaceInv(rows0, Apply(s, Arrive(req)))
  {
    var u := Apply(s, Arrive(req));
    forall w: nat, k ensures Winner(u, w, k) <==> Winner(s, w, k) {}
    forall w: nat | w < |u.threads| ensures Settled(u.rows, u.threads[w]) {
      assert w < |s.threads| ==> Settled(s.rows, s.threads[w]);
    }
    hide Held, Settled;
    forall k | k in u.rows && k !in rows0 ensures exists w: nat :: Winner(u, w, k) {
      var w: nat :| Winner(s, w, k);
      assert Winner(u, w, k);
    }
  }

  lemma RaceStep(rows0: map<int, Row>, s: State, step: Step)
    requires Inv(s) && RaceInv(rows0, s) && Enabled(s, step) && IsRaceStep(step)
    ensures RaceInv(rows0, Apply(s, step))
  {
    match step
    case Arrive(req) => RaceArrive(rows0, s, req);
    case Search(t) =>
      RaceMove(rows0, s, t, if Held(s.rows, s.threads[t].req.repo, s.threads[t].req.path) then Finished(AlreadyExists) else Searched);
    case Insert(t) =>
      if Held(s.rows, s.threads[t].req.repo, s.threads[t].req.path) {
        RaceMove(rows0, s, t, Finished(AlreadyExists));
      } else {
        RaceInsert(rows0, s, t);
      }
  }

  lemma {:induction false} RaceKeepsInv(rows0: map<int, Row>, s: State, steps: seq<Step>)
    requires Inv(s) && RaceInv(rows0, s) && IsRun(s, steps) && IsRace(steps)
    ensures Inv(End(s, steps)) && RaceInv(rows0, End(s, steps))
    decreases |steps|
  {
    if steps != [] {
      assert IsRaceStep(steps[0]);
      StepInv(s, steps[0]);
      RaceStep(rows0, s, steps[0]);
      RaceKeepsInv(rows0, Apply(s, steps[0]), steps[1..]);
    }
  }

  // The path has a lock now and had none at the start: one request got it.
  lemma HeldHasWinner(rows0: map<int, Row>, s: State, repo: int, path: string) returns (w: nat)
    requires RaceInv(rows0, s) && Held(s.rows, repo, path)
    requires forall id | id in rows0 && id in s.rows :: !SamePath(s.rows[id], repo, path)
    ensures On(s, w, repo, path) && Won(s, w)
  {
    var id :| id in s.rows && SamePath(s.rows[id], repo, path);
    w :| Winner(s, w, id);
    assert Settled(s.rows, s.threads[w]);
  }

  lemma WinnersDiffer(rows0: map<int, Row>, s: State, t: nat, u: nat)
    requires Inv(s) && RaceInv(rows0, s) && Won(s, t) && Won(s, u)
    requires s.threads[t].req.Lock? && On(s, u, s.threads[t].req.repo, s.threads[t].req.path)
    ensures t == u
  {
    var i, j := s.threads[t].phase.outcome.id, s.threads[u].phase.outcome.id;
    assert Winner(s, t, i) && Winner(s, u, j);
    assert SamePath(s.rows[i], s.rows[j].repo, s.rows[j].path);
  }

  // Of the requests racing for a path that was free, when all have finished, exactly one
  // got the lock and every other one was told it already exists.
  lemma OneWinner(s: State, steps: seq<Step>, repo: int, path: string, t: nat) returns (w: nat)
    requires Inv(s) && s.threads == [] && !Held(s.rows, repo, path)
    requires IsRun(s, steps) && IsRace(steps)
    requires forall u: nat | u < |End(s, steps).threads| :: End(s, steps).threads[u].phase.Finished?
    requires On(End(s, steps), t, repo, path)
    ensures On(End(s, steps), w, repo, path) && Won(End(s, steps), w)
    ensures forall u: nat | On(End(s, steps), u, repo, path) && u != w :: End(s, steps).threads[u].phase == Finished(AlreadyExists)
  {
    RaceKeepsInv(s.rows, s, steps);
    RaceRowsKept(s.rows, s, steps);
    var e := End(s, steps);
    assert Settled(e.rows, e.threads[t]);
    w := t;
    if !Won(e, t) {
      w := HeldHasWinner(s.rows, e, repo, path);
    }
    forall u: nat | On(e, u, repo, path) && u != w ensures e.threads[u].phase == Finished(AlreadyExists) {
      assert Settled(e.rows, e.threads[u]);
      if Won(e, u) {
        WinnersDiffer(s.rows, e, w, u);
      }
    }
  }

  lemma {:induction false} RaceRowsKept(rows0: map<int, Row>, s: State, steps: seq<Step>)
    requires Inv(s) && IsRun(s, steps) && IsRace(steps)
    requires forall id | id in rows0 :: id in s.rows && s.rows[id] == rows0[id]
    ensures forall id | id in rows0 :: id in End(s, steps).rows && End(s, steps).rows[id] == rows0[id]
    decreases |steps|
  {
    if steps != [] {
      assert IsRaceStep(steps[0]);
      StepInv(s, steps[0]);
      RaceRowsKept(rows0, Apply(s, steps[0]), steps[1..]);
    }
  }

  // ---------------------------------------------------------------- refusals

  // The step tells thread t that the lock already exists.
  predicate Refused(s: State, step: Step, t: nat)
    requires Enabled(s, step)
  {
    && t < |s.threads| && !s.threads[t].phase.Finished?
    && Apply(s, step).threads[t].phase == Finished(AlreadyExists)
  }

  ghost predicate TruthfulStep(s: State, step: Step)
    requires Enabled(s, step)
  {
    forall t: nat | Refused(s, step, t) :: s.threads[t].req.Lock? && Held(s.rows, s.threads[t].req.repo, s.threads[t].req.path)
  }

  // Whenever the run told a request that the lock exists, its path was held.
  ghost predicate AlwaysTruthful(s: State, steps: seq<Step>)
    requires IsRun(s, steps)
    decreases |steps|
  {
    steps == [] || (TruthfulStep(s, steps[0]) && AlwaysTruthful(Apply(s, steps[0]), steps[1..]))
  }

  // The insert of a request fails although its path is free.
  predicate FailsOnFree(s: State, step: Step)
    requires Enabled(s, step)
  {
    && step.Fault? && s.threads[step.t].req.Lock? && s.threads[step.t].phase == Searched
    && !Held(s.rows, s.threads[step.t].req.repo, s.threads[step.t].req.path)
  }

  ghost predicate NeverFailsOnFree(s: State, steps: seq<Step>)
    requires IsRun(s, steps)
    decreases |steps|
  {
    steps == [] || (!FailsOnFree(s, steps[0]) && NeverFailsOnFree(Apply(s, steps[0]), steps[1..]))
  }

  lemma StepTruthfulIff(s: State, step: Step)
    requires Enabled(s, step)
    ensures TruthfulStep(s, step) <==> !FailsOnFree(s, step)
  {
    if FailsOnFree(s, step) {
      assert Refused(s, step, step.t);
    }
  }

  // Over any run of locking and unlocking: every refusal was given while the path was held
  // exactly when no insert failed for a path that was free.
  lemma {:induction false} FalseRefusalIff(s: State, steps: seq<Step>)
    requires IsRun(s, steps)
    ensures AlwaysTruthful(s, steps) <==> NeverFailsOnFree(s, steps)
    decreases |steps|
  {
    if steps != [] {
      StepTruthfulIff(s, steps[0]);
      FalseRefusalIff(Apply(s, steps[0]), steps[1..]);
    }
  }

  ghost predicate Reaches(s: State, t: State) { exists steps :: IsRun(s, steps) && End(s, steps) == t }

  lemma Here(s: State)
    ensures Reaches(s, s)
  {
    assert IsRun(s, []) && End(s, []) == s;
  }

  lemma Then(s: State, t: State, step: Step)
    requires Reaches(s, t) && Enabled(t, step)
    ensures Reaches(s, Apply(t, step))
  {
    var steps :| IsRun(s, steps) && End(s, steps) == t;
    OneMore(s, steps, step);
  }

  lemma {:induction false} OneMore(s: State, steps: seq<Step>, step: Step)
    requires IsRun(s, steps) && Enabled(End(s, steps), step)
    ensures IsRun(s, steps + [step]) && End(s, steps + [step]) == Apply(End(s, steps), step)
    decreases |steps|
  {
    if steps == [] {
      assert (steps + [step])[1..] == [];
    } else {
      assert (steps + [step])[1..] == steps[1..] + [step];
      OneMore(Apply(s, steps[0]), steps[1..], step);
    }
  }

  // A request can be told that the lock exists although no lock was ever created.
  lemma FalseRefusalRun(req: Request)
    requires req.Lock?
    ensures Reaches(Init(), State(map[], 0, [Thread(req, Finished(AlreadyExists))]))
  {
    hide Reaches;
    Here(Init());
    Then(Init(), Init(), Arrive(req));
    var s1 := Apply(Init(), Arrive(req));
    Then(Init(), s1, Search(0));
    var s2 := Apply(s1, Search(0));
    Then(Init(), s2, Fault(0));
    assert Apply(s2, Fault(0)) == State(map[], 0, [Thread(req, Finished(AlreadyExists))]);
  }

  // ---------------------------------------------------------------- repositories of removed locks

  // A removal takes the row of its id. The row belongs to the repository the request named
  // exactly when the row found at the check did, however late the removal comes: nothing
  // else compares the two.
  lemma RemovedFromNamedIff(s: State, steps: seq<Step>, t: nat)
    requires Inv(s) && IsRun(s, steps) && Enabled(End(s, steps), Remove(t))
    requires End(s, steps).threads[t].req.id in End(s, steps).rows
    ensures var u := End(s, steps);
            u.rows[u.threads[t].req.id].repo == u.threads[t].req.repo <==> u.threads[t].phase.row.repo == u.threads[t].req.repo
  {
    EveryRunKeepsInv(s, steps);
  }

  // So an unlock that names one repository can remove the lock of another.
  lemma ForeignUnlockRun(repo: int, other: int, path: string, user: int)
    requires repo != other
    ensures var held := State(map[0 := Row(repo, path, user)], 1, [Thread(Lock(repo, path, user), Finished(Locked(0)))]);
            && Reaches(Init(), held)
            && exists t :: Reaches(held, t) && t.rows == map[] && |t.threads| == 2 && t.threads[1] == Thread(Unlock(other, 0, user, false), Finished(Removed))
  {
    hide Reaches;
    var unlock := Unlock(other, 0, user, false);
    var held := LockedBy(repo, path, user);
    Here(held);
    Then(held, held, Arrive(unlock));
    var s3 := Apply(held, Arrive(unlock));
    Then(held, s3, Find(1));
    var s4 := Apply(s3, Find(1));
    Then(held, s4, Remove(1));
    var t := Apply(s4, Remove(1));
    assert t.rows == map[] && t.threads[1] == Thread(unlock, Finished(Removed));
  }

  // ---------------------------------------------------------------- answers

  // What an unlock is answered: without a row it is not found; a row is refused exactly
  // when the removal is not forced and the row is another user's; otherwise the removal
  // follows, which takes that row away and no other.
  lemma UnlockAnswer(s: State, t: nat)
    requires Inv(s) && Enabled(s, Find(t))
    ensures var req, u := s.threads[t].req, Apply(s, Find(t));
            && u.rows == s.rows
            && (u.threads[t].phase == Finished(NotFound) <==> req.id !in s.rows)
            && (u.threads[t].phase == Finished(Forbidden) <==> req.id in s.rows && !req.force && s.rows[req.id].user != req.user)
            && (req.id in s.rows && (req.force || s.rows[req.id].user == req.user) ==>
                  && Enabled(u, Remove(t))
                  && Apply(u, Remove(t)).threads[t].phase == Finished(Removed)
                  && Apply(u, Remove(t)).rows == map id | id in s.rows && id != req.id :: s.rows[id])
  {
    var req, u := s.threads[t].req, Apply(s, Find(t));
    if req.id in s.rows && (req.force || s.rows[req.id].user == req.user) {
      assert s.rows - {req.id} == map id | id in s.rows && id != req.id :: s.rows[id];
    }
  }

  // A step tells an unlock that its lock is not found, forbidden or removed only when that
  // is so at that moment; a fault is told as none of them.
  lemma UnlockAnsweredTruly(s: State, step: Step, t: nat)
    requires Inv(s) && Enabled(s, step) && t < |s.threads| && s.threads[t].req.Unlock? && !s.threads[t].phase.Finished?
    ensures var req, u := s.threads[t].req, Apply(s, step);
            && (u.threads[t].phase == Finished(NotFound) ==> req.id !in s.rows)
            && (u.threads[t].phase == Finished(Forbidden) ==> req.id in s.rows && !req.force && s.rows[req.id].user != req.user)
            && (u.threads[t].phase == Finished(Removed) ==> s.threads[t].phase.Found? && req.id !in u.rows)
            && (step == Fault(t) ==> u.threads[t].phase == Finished(StoreError) && u.rows == s.rows)
  {}

  // What the answer of a finished request says about the table, from then on: ids are
  // handed out once.
  ghost predicate Truthful(s: State, th: Thread) {
    match th.phase
    case Finished(Locked(id)) =>
      th.req.Lock? && id < s.nextId && (id in s.rows ==> s.rows[id] == Row(th.req.repo, th.req.path, th.req.user))
    case Finished(AlreadyExists) => th.req.Lock?
    case Finished(Removed) => th.req.Unlock? && th.req.id < s.nextId && th.req.id !in s.rows
    case Finished(NotFound) => th.req.Unlock?
    case Finished(Forbidden) => th.req.Unlock? && !th.req.force
    case _ => true
  }

  ghost predicate AllTruthful(s: State) { forall t: nat | t < |s.threads| :: Truthful(s, s.threads[t]) }

  lemma StepTruthful(s: State, step: Step)
    requires Inv(s) && AllTruthful(s) && Enabled(s, step)
    ensures AllTruthful(Apply(s, step))
  {
    var u := Apply(s, step);
    forall t: nat | t < |u.threads| ensures Truthful(u, u.threads[t]) {
      assert t < |s.threads| ==> Truthful(s, s.threads[t]);
    }
  }

  // Over any run, with faults anywhere: a lock that was granted is the row of its id for
  // as long as that id has one, and a lock reported as removed is gone for good.
  lemma {:induction false} AnswersHold(s: State, steps: seq<Step>)
    requires Inv(s) && AllTruthful(s) && IsRun(s, steps)
    ensures AllTruthful(End(s, steps))
    decreases |steps|
  {
    if steps != [] {
      StepTruthful(s, steps[0]);
      StepInv(s, steps[0]);
      AnswersHold(Apply(s, steps[0]), steps[1..]);
    }
  }

  // One user locks a path and another removes the lock by force.
  lemma ForcedUnlockRun(repo: int, path: string, owner: int, other: int)
    ensures var held := State(map[0 := Row(repo, path, owner)], 1, [Thread(Lock(repo, path, owner), Finished(Locked(0)))]);
            && Reaches(Init(), held)
            && exists t :: Reaches(held, t) && t.rows == map[] && |t.threads| == 2
                        && t.threads[1] == Thread(Unlock(repo, 0, other, true), Finished(Removed))
  {
    hide Reaches;
    var held := LockedBy(repo, path, owner);
    Here(held);
    var unlock := Unlock(repo, 0, other, true);
    Then(held, held, Arrive(unlock));
    var s1 := Apply(held, Arrive(unlock));
    Then(held, s1, Find(1));
    var s2 := Apply(s1, Find(1));
    Then(held, s2, Remove(1));
    var t := Apply(s2, Remove(1));
    assert t.rows == map[] && t.threads[1] == Thread(unlock, Finished(Removed));
  }

  lemma LockedBy(repo: int, path: string, user: int) returns (held: State)
    ensures held == State(map[0 := Row(repo, path, user)], 1, [Thread(Lock(repo, path, user), Finished(Locked(0)))])
    ensures Reaches(Init(), held)
  {
    hide Reaches;
    var lock := Lock(repo, path, user);
    Here(Init());
    Then(Init(), Init(), Arrive(lock));
    var s1 := Apply(Init(), Arrive(lock));
    Then(Init(), s1, Search(0));
    var s2 := Apply(s1, Search(0));
    Then(Init(), s2, Insert(0));
    held := Apply(s2, Insert(0));
    assert held == State(map[0 := Row(repo, path, user)], 1, [Thread(lock, Finished(Locked(0)))]);
  }

  // ---------------------------------------------------------------- listing

  function OwnedBy(locks: seq<Row>, user: int, own: bool): seq<Row> {
    if locks == [] then []
    else
      OwnedBy(locks[..|locks| - 1], user, own) +
      if (locks[|locks| - 1].user == user) == own then [locks[|locks| - 1]] else []
  }

  // VerifyLock: the caller's locks and the others', each in the order of the listing.
  method VerifyLock(locks: seq<Row>, user: int) returns (ours: seq<Row>, theirs: seq<Row>)
    ensures ours == OwnedBy(locks, user, true) && theirs == OwnedBy(locks, user, false)
  {
    ours, theirs := [], [];
    for i := 0 to |locks|
      invariant ours == OwnedBy(locks[..i], user, true) && theirs == OwnedBy(locks[..i], user, false)
    {
      assert locks[..i + 1][..i] == locks[..i];
      if locks[i].user == user {
        ours := ours + [locks[i]];
      } else {
        theirs := theirs + [locks[i]];
      }
    }
    assert locks[..|locks|] == locks;
  }

  // Every lock is listed once, on the side of its owner.
  lemma {:induction false} OwnedSplits(locks: seq<Row>, user: int)
    ensures multiset(OwnedBy(locks, user, true)) + multiset(OwnedBy(locks, user, false)) == multiset(locks)
    ensures forall l | l in OwnedBy(locks, user, true) :: l.user == user
    ensures forall l | l in OwnedBy(locks, user, false) :: l.user != user
  {
    OwnedAre(locks, user, true);
    OwnedAre(locks, user, false);
    if locks != [] {
      hide *;
      var init, last := locks[..|locks| - 1], locks[|locks| - 1];
      assert locks == init + [last];
      OwnedSplits(init, user);
      OwnedNext(init, last, user);
      AddOne(OwnedBy(init, user, true), OwnedBy(init, user, false), init, last);
    }
  }

  // Each side keeps the order of the listing.
  lemma {:induction false} OwnedInOrder(a: seq<Row>, b: seq<Row>, user: int, own: bool)
    ensures OwnedBy(a + b, user, own) == OwnedBy(a, user, own) + OwnedBy(b, user, own)
  {
    if b == [] {
      assert a + b == a;
    } else {
      assert (a + b)[..|a + b| - 1] == a + b[..|b| - 1];
      OwnedInOrder(a, b[..|b| - 1], user, own);
    }
  }

  lemma OwnedNext(init: seq<Row>, last: Row, user: int)
    ensures OwnedBy(init + [last], user, true) == if last.user == user then OwnedBy(init, user, true) + [last] else OwnedBy(init, user, true)
    ensures OwnedBy(init + [last], user, false) == if last.user == user then OwnedBy(init, user, false) else OwnedBy(init, user, false) + [last]
  {
    assert (init + [last])[..|init|] == init;
  }

  lemma AddOne(a: seq<Row>, b: seq<Row>, all: seq<Row>, x: Row)
    requires multiset(a) + multiset(b) == multiset(all)
    ensures multiset(a + [x]) + multiset(b) == multiset(all + [x]) == multiset(a) + multiset(b + [x])
  {
    assert multiset(a + [x]) == multiset(a) + multiset{x};
    assert multiset(b + [x]) == multiset(b) + multiset{x};
    assert multiset(all + [x]) == multiset(all) + multiset{x};
  }

  lemma {:induction false} OwnedAre(locks: seq<Row>, user: int, own: bool)
    ensures forall l | l in OwnedBy(locks, user, own) :: (l.user == user) == own
  {
    if locks != [] {
      OwnedAre(locks[..|locks| - 1], user, own);
    }
  }
}
