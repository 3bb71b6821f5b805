// GenRepoFileRecordsBatch (component/repo_file.go): a producer pages through the
// repositories by keyset and starts one goroutine per repository, a buffered channel of
// tokens bounds how many work at once, and a wait group is awaited at the end. Modelled
// as a machine whose steps interleave freely.
module FanOut {
  import opened Counting
  import opened Keyset

  const BATCH := 10

  // Working holds a token; Released has put it back and has not yet called wg.Done.
  datatype Phase = Working | Released | Done

  datatype Producer =
    | Fetching
    | Dispatching(page: seq<int>, next: nat)
    | Waiting
    | Finished
    | Failed

  // ids are the rows the filter selects, in ascending order.
  // concurrency is the capacity of the token channel.
  datatype Config = Config(ids: seq<int>, start: int, concurrency: nat) {
    predicate Valid() { Ascending(ids, Id) && forall i | 0 <= i < |ids| :: ids[i] > 0 }
    function Targets(): seq<int> { Above(ids, Id, start) }
  }

  // free is the number of tokens in the channel; worker w handles repository started[w].
  datatype State = State(free: nat, last: int, producer: Producer, started: seq<int>, phases: seq<Phase>)

  datatype Step = FetchOk | FetchErr | Dispatch | PageDone | Release(w: nat) | WorkerDone(w: nat) | WaitOver

  function Init(c: Config): State { State(c.concurrency, c.start, Fetching, [], []) }

  ghost predicate AllDone(s: State) { forall w | 0 <= w < |s.phases| :: s.phases[w] == Done }

  ghost predicate Enabled(c: Config, s: State, step: Step) {
    match step
    case FetchOk => s.producer == Fetching
    case FetchErr => s.producer == Fetching
    case Dispatch => s.producer.Dispatching? && s.producer.next < |s.producer.page| && s.free > 0
    case PageDone => s.producer.Dispatching? && s.producer.next == |s.producer.page|
    case Release(w) => w < |s.phases| && s.phases[w] == Working && s.free < c.concurrency
    case WorkerDone(w) => w < |s.phases| && s.phases[w] == Released
    case WaitOver => s.producer == Waiting && AllDone(s)
  }

  function Apply(c: Config, s: State, step: Step): State
    requires Enabled(c, s, step)
  {
    match step
    case FetchOk => s.(producer := Dispatching(BatchGet(c.ids, Id, s.last, BATCH), 0))
    case FetchErr => s.(producer := Failed)
    case Dispatch =>
      s.(free := s.free - 1,
         producer := s.producer.(next := s.producer.next + 1),
         started := s.started + [s.producer.page[s.producer.next]],
         phases := s.phases + [Working])
    case PageDone =>
      var page := s.producer.page;
      if |page| < BATCH then s.(producer := Waiting)
      else s.(producer := Fetching, last := page[|page| - 1])
    case Release(w) => s.(free := s.free + 1, phases := s.phases[w := Released])
    case WorkerDone(w) => s.(phases := s.phases[w := Done])
    case WaitOver => s.(producer := Finished)
  }

  ghost predicate IsRun(c: Config, s: State, steps: seq<Step>)
    decreases |steps|
  {
    steps == [] || (Enabled(c, s, steps[0]) && IsRun(c, Apply(c, s, steps[0]), steps[1..]))
  }

  ghost function End(c: Config, s: State, steps: seq<Step>): State
    requires IsRun(c, s, steps)
    decreases |steps|
  {
    if steps == [] then s else End(c, Apply(c, s, steps[0]), steps[1..])
  }

  // The repositories the producer has not started yet.
  function Pending(c: Config, s: State): seq<int> {
    match s.producer
    case Fetching => Above(c.ids, Id, s.last)
    case Dispatching(page, next) =>
      (if next <= |page| then page[next..] else [])
      + if |page| < BATCH then [] else Above(c.ids, Id, page[|page| - 1])
    case _ => []
  }

  // Tokens are conserved, and what was started together with what is pending is the
  // target list in order. A failed fetch leaves a prefix started.
  ghost predicate Inv(c: Config, s: State) {
    && s.free + Count(s.phases, Working) == c.concurrency
    && |s.started| == |s.phases|
    && (s.producer.Dispatching? ==> s.producer.next <= |s.producer.page| <= BATCH)
    && (if s.producer == Failed then s.started <= c.Targets() else s.started + Pending(c, s) == c.Targets())
    && (s.producer == Finished ==> AllDone(s))
  }

  lemma InitInv(c: Config)
    ensures Inv(c, Init(c))
  {}

  lemma FetchInv(c: Config, s: State)
    requires c.Valid() && Inv(c, s) && Enabled(c, s, FetchOk)
    ensures Inv(c, Apply(c, s, FetchOk))
  {
    var page := BatchGet(c.ids, Id, s.last, BATCH);
    BatchGetIsPage(c.ids, Id, s.last, BATCH);
    PageThenRest(c.ids, Id, s.last, BATCH);
    assert page[0..] == page;
    assert Pending(c, Apply(c, s, FetchOk)) == Pending(c, s);
  }

  lemma DispatchInv(c: Config, s: State)
    requires Inv(c, s) && Enabled(c, s, Dispatch)
    ensures Inv(c, Apply(c, s, Dispatch))
  {
    hide Above, BatchGet, Pending;
    CountAppend(s.phases, Working, Working);
    DispatchPending(c, s);
  }

  lemma DispatchPending(c: Config, s: State)
    requires Enabled(c, s, Dispatch) && s.producer.next <= |s.producer.page| <= BATCH
    ensures Apply(c, s, Dispatch).started + Pending(c, Apply(c, s, Dispatch)) == s.started + Pending(c, s)
  {
    hide Above, BatchGet;
    var page, next := s.producer.page, s.producer.next;
    var rest := if |page| < BATCH then [] else Above(c.ids, Id, page[|page| - 1]);
    assert Pending(c, s) == page[next..] + rest;
    assert Pending(c, Apply(c, s, Dispatch)) == page[next + 1..] + rest;
    hide *;
    MoveOne(s.started, page, next, rest);
  }

  lemma MoveOne(started: seq<int>, page: seq<int>, next: nat, rest: seq<int>)
    requires next < |page|
    ensures started + [page[next]] + (page[next + 1..] + rest) == started + (page[next..] + rest)
  {
    assert page[next..] == [page[next]] + page[next + 1..];
  }

  lemma StepInv(c: Config, s: State, step: Step)
    requires c.Valid() && Inv(c, s) && Enabled(c, s, step)
    ensures Inv(c, Apply(c, s, step))
  {
    hide Above, BatchGet;
    match step
    case FetchOk => FetchInv(c, s);
    case Dispatch => DispatchInv(c, s);
    case PageDone => assert s.producer.page[s.producer.next..] == [];
    case Release(w) => CountUpdate(s.phases, w, Released, Working);
    case WorkerDone(w) => CountUpdate(s.phases, w, Done, Working);
    case _ =>
  }

  // The invariant holds in every state of every interleaving.
  lemma {:induction false} EveryRunKeepsInv(c: Config, s: State, steps: seq<Step>)
    requires c.Valid() && Inv(c, s) && IsRun(c, s, steps)
    ensures Inv(c, End(c, s, steps))
    decreases |steps|
  {
    if steps != [] {
      StepInv(c, s, steps[0]);
      EveryRunKeepsInv(c, Apply(c, s, steps[0]), steps[1..]);
    }
  }

  // Free and held tokens always add up, at most concurrency goroutines work at once, and
  // putting a token back never blocks.
  lemma TokensConserved(c: Config, steps: seq<Step>)
    requires c.Valid() && IsRun(c, Init(c), steps)
    ensures var s := End(c, Init(c), steps);
            && s.free + Count(s.phases, Working) == c.concurrency
            && (forall w: nat | w < |s.phases| && s.phases[w] == Working :: Enabled(c, s, Release(w)))
  {
    InitInv(c);
    EveryRunKeepsInv(c, Init(c), steps);
    var s := End(c, Init(c), steps);
    CountZero(s.phases, Working);
  }

  // A run that finishes has started every repository above the start exactly once, in
  // order, and every one of its goroutines is done.
  lemma FinishedHandledAll(c: Config, steps: seq<Step>)
    requires c.Valid() && IsRun(c, Init(c), steps)
    requires End(c, Init(c), steps).producer == Finished
    ensures var s := End(c, Init(c), steps);
            && s.started == c.Targets()
            && Ascending(s.started, Id)
            && |s.phases| == |s.started|
            && AllDone(s)
  {
    InitInv(c);
    EveryRunKeepsInv(c, Init(c), steps);
    AboveAscending(c.ids, Id, c.start);
  }

  // Nothing is left to do: the call has returned and no goroutine is alive.
  ghost predicate Terminal(s: State) { (s.producer == Finished || s.producer == Failed) && AllDone(s) }

  ghost predicate Stuck(c: Config, s: State) { forall step :: !Enabled(c, s, step) }

  // With at least one token every state that is not terminal can take a step.
  lemma Progress(c: Config, s: State) returns (step: Step)
    requires c.Valid() && Inv(c, s) && !Terminal(s)
    requires c.concurrency > 0
    ensures Enabled(c, s, step)
  {
    CountZero(s.phases, Working);
    if w: nat :| w < |s.phases| && s.phases[w] == Working {
      step := Release(w);
    } else if w: nat :| w < |s.phases| && s.phases[w] == Released {
      step := WorkerDone(w);
    } else {
      assert AllDone(s);
      match s.producer
      case Fetching => step := FetchOk;
      case Dispatching(page, next) => step := if next == |page| then PageDone else Dispatch;
      case Waiting => step := WaitOver;
    }
  }

  // The steps lead to a state in which nothing can move although work is left.
  ghost predicate DeadlocksAfter(c: Config, steps: seq<Step>) {
    IsRun(c, Init(c), steps) && Stuck(c, End(c, Init(c), steps)) && !Terminal(End(c, Init(c), steps))
  }

  // A deadlock is reachable exactly when there are no tokens and some repository to handle.
  lemma DeadlockIff(c: Config)
    requires c.Valid()
    ensures (exists steps :: DeadlocksAfter(c, steps)) <==> c.concurrency == 0 && c.Targets() != []
  {
    forall steps | DeadlocksAfter(c, steps)
      ensures c.concurrency == 0 && c.Targets() != []
    {
      InitInv(c);
      EveryRunKeepsInv(c, Init(c), steps);
      StuckMeansNoTokens(c, End(c, Init(c), steps));
    }
    if c.concurrency == 0 && c.Targets() != [] {
      NoTokensDeadlock(c);
    }
  }

  lemma StuckMeansNoTokens(c: Config, s: State)
    requires c.Valid() && Inv(c, s) && Stuck(c, s) && !Terminal(s)
    ensures c.concurrency == 0 && c.Targets() != []
  {
    if c.concurrency > 0 {
      var step := Progress(c, s);
      assert false;
    } else {
      CountZero(s.phases, Working);
      forall w: nat | w < |s.phases| ensures s.phases[w] == Done {
        assert !Enabled(c, s, WorkerDone(w));
      }
      assert !Enabled(c, s, FetchOk) && !Enabled(c, s, WaitOver) && !Enabled(c, s, PageDone);
      assert Pending(c, s) != [];
    }
  }

  lemma NoTokensDeadlock(c: Config)
    requires c.Valid() && c.concurrency == 0 && c.Targets() != []
    ensures DeadlocksAfter(c, [FetchOk])
  {
    BatchGetIsPage(c.ids, Id, c.start, BATCH);
    PageThenRest(c.ids, Id, c.start, BATCH);
    var s := Apply(c, Init(c), FetchOk);
    assert IsRun(c, s, []);
    assert [FetchOk][1..] == [];
    assert End(c, Init(c), [FetchOk]) == s;
  }

  // ---------------------------------------------------------------- termination

  function Weight(phases: seq<Phase>): nat { 2 * Count(phases, Working) + Count(phases, Released) }

  function Rank(p: Producer): nat {
    match p
    case Fetching => 4
    case Dispatching(page, next) => if |page| == BATCH && next > 0 then 5 else 3
    case Waiting => 2
    case _ => 0
  }

  function Measure(c: Config, s: State): int {
    10 * (|c.Targets()| - |s.started|) + Weight(s.phases) + Rank(s.producer)
  }

  lemma StepDecreases(c: Config, s: State, step: Step)
    requires c.Valid() && Inv(c, s) && Enabled(c, s, step)
    ensures 0 <= Measure(c, Apply(c, s, step)) < Measure(c, s)
  {
    StepInv(c, s, step);
    match step
    case Dispatch =>
      CountAppend(s.phases, Working, Working);
      CountAppend(s.phases, Working, Released);
    case Release(w) =>
      CountUpdate(s.phases, w, Released, Working);
      CountUpdate(s.phases, w, Released, Released);
    case WorkerDone(w) =>
      CountUpdate(s.phases, w, Done, Working);
      CountUpdate(s.phases, w, Done, Released);
    case _ =>
  }

  // No run is longer than ten steps a repository and four more: with Progress, every
  // maximal run of a call with tokens ends in a terminal state.
  lemma {:induction false} RunsAreFinite(c: Config, s: State, steps: seq<Step>)
    requires c.Valid() && Inv(c, s) && IsRun(c, s, steps)
    ensures |steps| + Measure(c, End(c, s, steps)) <= Measure(c, s)
    ensures Measure(c, Init(c)) == 10 * |c.Targets()| + 4
    decreases |steps|
  {
    if steps != [] {
      StepInv(c, s, steps[0]);
      StepDecreases(c, s, steps[0]);
      RunsAreFinite(c, Apply(c, s, steps[0]), steps[1..]);
    }
  }

  lemma {:induction false} FailedIff(c: Config, s: State, steps: seq<Step>)
    requires IsRun(c, s, steps)
    ensures End(c, s, steps).producer == Failed <==> s.producer == Failed || FetchErr in steps
    decreases |steps|
  {
    if steps != [] {
      FailedIff(c, Apply(c, s, steps[0]), steps[1..]);
      assert steps == [steps[0]] + steps[1..];
    }
  }

  // With tokens, a run that cannot go on has returned with no goroutine alive; it has
  // handled every target exactly once in order unless a fetch failed.
  lemma MaximalRun(c: Config, steps: seq<Step>)
    requires c.Valid() && c.concurrency > 0
    requires IsRun(c, Init(c), steps) && Stuck(c, End(c, Init(c), steps))
    ensures Terminal(End(c, Init(c), steps))
    ensures FetchErr !in steps ==> End(c, Init(c), steps).started == c.Targets()
    ensures FetchErr in steps ==> End(c, Init(c), steps).started <= c.Targets()
  {
    InitInv(c);
    EveryRunKeepsInv(c, Init(c), steps);
    FailedIff(c, Init(c), steps);
    if !Terminal(End(c, Init(c), steps)) {
      StuckMeansNoTokens(c, End(c, Init(c), steps));
    }
  }

  // Tokens bound the working goroutines, not the live ones: with a single token two
  // goroutines can be alive, because the token goes back before wg.Done.
  lemma GoroutineOutlivesToken()
    ensures var c := Config([1, 2], 0, 1);
            exists steps :: IsRun(c, Init(c), steps)
              && |End(c, Init(c), steps).phases| - Count(End(c, Init(c), steps).phases, Done) == 2 > c.concurrency
  {
    var c := Config([1, 2], 0, 1);
    var s0 := Init(c);
    var s1 := Apply(c, s0, FetchOk);
    var s2 := Apply(c, s1, Dispatch);
    var s3 := Apply(c, s2, Release(0));
    var s4 := Apply(c, s3, Dispatch);
    assert s4.phases == [Released, Working];
    CountZero(s4.phases, Done);
    assert IsRun(c, s4, []);
    assert IsRun(c, s3, [Dispatch]) by { assert [Dispatch][1..] == []; }
    assert End(c, s3, [Dispatch]) == s4 by { assert [Dispatch][1..] == []; }
    var r2 := [Release(0), Dispatch];
    assert r2[1..] == [Dispatch];
    var r1 := [Dispatch, Release(0), Dispatch];
    assert r1[1..] == r2;
    var r0 := [FetchOk, Dispatch, Release(0), Dispatch];
    assert r0[1..] == r1;
    assert IsRun(c, s0, r0) && End(c, s0, r0) == s4;
  }

  // The repositories to handle are those with an id above the start.
  lemma TargetsAre(c: Config)
    requires c.Valid()
    ensures forall id :: id in c.Targets() <==> id in c.ids && id > c.start
    ensures Ascending(c.Targets(), Id)
  {
    AboveMembers(c.ids, Id, c.start);
    AboveAscending(c.ids, Id, c.start);
  }

  // A fetch brings up to ten of them.
  lemma FetchOfTen(c: Config, s: State)
    requires c.Valid() && Enabled(c, s, FetchOk)
    ensures var page, above := Apply(c, s, FetchOk).producer.page, Above(c.ids, Id, s.last);
            page == if |above| <= 10 then above else above[..10]
  {
    BatchGetIsPage(c.ids, Id, s.last, BATCH);
  }
}
