// ListPrompt (component/prompt.go): one goroutine per eligible file parses it and sends
// the result to a buffered channel; a collector goroutine appends what it receives; the
// caller waits for the workers, closes the channel, waits for the collector and returns.
module PromptFan {
  import opened Wrappers
  import opened Counting

  // parsed is what ParseJsonFile gives for the file; None is its error, sent as nil.
  datatype File<P> = File(path: string, size: int, lfs: bool, parsed: Option<P>)

  datatype Config<P> = Config(tree: seq<File<P>>, maxSize: int)

  datatype Phase = Running | Sent | Done

  datatype Caller = Spawning(next: nat) | Waiting | AwaitingCollector | Returned

  datatype Collector = Receiving | Ended | Crashed

  // sent records the order in which workers sent; worker w parses Eligible(tree)[w].
  datatype State<P> = State(
    caller: Caller, phases: seq<Phase>, channel: seq<Option<P>>, closed: bool,
    collector: Collector, prompts: seq<P>, sent: seq<nat>)

  datatype Step = Spawn | SpawnOver | Send(w: nat) | WorkerDone(w: nat) | Close | Receive | CollectorEnd | Return

  function Lower(c: char): char { if 'A' <= c <= 'Z' then (c as int + 32) as char else c }

  function ToLower(s: string): (r: string)
    ensures |r| == |s|
  {
    if s == "" then "" else [Lower(s[0])] + ToLower(s[1..])
  }

  predicate HasSuffix(s: string, suffix: string) { |suffix| <= |s| && s[|s| - |suffix|..] == suffix }

  predicate IsEligible<P>(f: File<P>, maxSize: int) {
    !f.lfs && f.size <= maxSize && HasSuffix(ToLower(f.path), ".jsonl")
  }

  // What the workers send for a list of files, in file order.
  function Results<P>(tree: seq<File<P>>, maxSize: int): (r: seq<Option<P>>)
    ensures |r| <= |tree|
  {
    if tree == [] then []
    else
      var f := tree[|tree| - 1];
      Results(tree[..|tree| - 1], maxSize) + if IsEligible(f, maxSize) then [f.parsed] else []
  }

  function All<P>(c: Config<P>): seq<Option<P>> { Results(c.tree, c.maxSize) }

  function Init<P>(): State<P> { State(Spawning(0), [], [], false, Receiving, [], []) }

  ghost predicate AllDone<P>(s: State<P>) { forall w | 0 <= w < |s.phases| :: s.phases[w] == Done }

  // A panic in any goroutine ends the process: after a crash nothing is enabled. A send
  // needs room in the channel, whose capacity is the number of files, and an open channel.
  ghost predicate Enabled<P>(c: Config<P>, s: State<P>, step: Step) {
    && s.collector != Crashed
    && match step
       case Spawn => s.caller.Spawning? && s.caller.next < |c.tree|
       case SpawnOver => s.caller.Spawning? && s.caller.next == |c.tree|
       case Send(w) => CanSend(c, s, w)
       case WorkerDone(w) => w < |s.phases| && s.phases[w] == Sent
       case Close => s.caller == Waiting && AllDone(s)
       case Receive => s.collector == Receiving && s.channel != []
       case CollectorEnd => s.collector == Receiving && s.channel == [] && s.closed
       case Return => s.caller == AwaitingCollector && s.collector == Ended
  }

  ghost predicate CanSend<P>(c: Config<P>, s: State<P>, w: nat) {
    w < |s.phases| && s.phases[w] == Running && w < |All(c)| && |s.channel| < |c.tree| && !s.closed
  }

  function Apply<P>(c: Config<P>, s: State<P>, step: Step): State<P>
    requires Enabled(c, s, step)
  {
    match step
    case Spawn =>
      var t := s.(caller := Spawning(s.caller.next + 1));
      if IsEligible(c.tree[s.caller.next], c.maxSize) then t.(phases := s.phases + [Running]) else t
    case SpawnOver => s.(caller := Waiting)
    case Send(w) =>
      s.(phases := s.phases[w := Sent], channel := s.channel + [All(c)[w]], sent := s.sent + [w])
    case WorkerDone(w) => s.(phases := s.phases[w := Done])
    case Close => s.(closed := true, caller := AwaitingCollector)
    case Receive =>
      var t := s.(channel := s.channel[1..]);
      (match s.channel[0]
       case Some(p) => t.(prompts := s.prompts + [p])
       case None => t.(collector := Crashed))
    case CollectorEnd => s.(collector := Ended)
    case Return => s.(caller := Returned)
  }

  ghost predicate IsRun<P>(c: Config<P>, s: State<P>, steps: seq<Step>)
    decreases |steps|
  {
    steps == [] || (Enabled(c, s, steps[0]) && IsRun(c, Apply(c, s, steps[0]), steps[1..]))
  }

  ghost function End<P>(c: Config<P>, s: State<P>, steps: seq<Step>): State<P>
    requires IsRun(c, s, steps)
    decreases |steps|
  {
    if steps == [] then s else End(c, Apply(c, s, steps[0]), steps[1..])
  }

  // ---------------------------------------------------------------- invariant

  function Wrap<P>(ps: seq<P>): (r: seq<Option<P>>)
    ensures |r| == |ps| && forall i | 0 <= i < |ps| :: r[i] == Some(ps[i])
  {
    seq(|ps|, i requires 0 <= i < |ps| => Some(ps[i]))
  }

  ghost predicate Distinct(ws: seq<nat>) { forall i, j | 0 <= i < j < |ws| :: ws[i] != ws[j] }

  // How many files the caller has gone through.
  function Seen<P>(c: Config<P>, s: State<P>): int {
    if s.caller.Spawning? then s.caller.next else |c.tree|
  }

  // What was received so far followed by what is in the channel.
  function Flow<P>(s: State<P>): seq<Option<P>> { FlowOf(s.prompts, s.collector == Crashed, s.channel) }

  function FlowOf<P>(prompts: seq<P>, crashed: bool, channel: seq<Option<P>>): seq<Option<P>> {
    Wrap(prompts) + (if crashed then [None] else []) + channel
  }

  // Which workers have sent, and that each has sent once.
  ghost predicate Sending(phases: seq<Phase>, sent: seq<nat>) {
    && Distinct(sent)
    && |sent| + Count(phases, Running) == |phases|
    && forall w: nat :: w in sent <==> w < |phases| && phases[w] != Running
  }

  // Entry k of what flows to the collector is what worker sent[k] parsed.
  ghost predicate Flowing<P>(all: seq<Option<P>>, flow: seq<Option<P>>, sent: seq<nat>) {
    && |flow| == |sent|
    && forall k | 0 <= k < |sent| :: sent[k] < |all| && flow[k] == all[sent[k]]
  }

  // The order in which the caller and the collector end.
  ghost predicate Ending<P>(s: State<P>) {
    && (s.caller.AwaitingCollector? || s.caller.Returned? ==> AllDone(s))
    && (s.closed <==> s.caller.AwaitingCollector? || s.caller.Returned?)
    && (s.collector == Ended ==> s.closed && s.channel == [])
    && (s.caller.Returned? ==> s.collector == Ended)
  }

  // One worker for each eligible file the caller has gone through.
  ghost predicate Spawned<P>(c: Config<P>, seen: int, workers: nat) {
    && 0 <= seen <= |c.tree|
    && workers == |Results(c.tree[..seen], c.maxSize)| <= |All(c)|
  }

  ghost predicate Inv<P>(c: Config<P>, s: State<P>) {
    && Spawned(c, Seen(c, s), |s.phases|)
    && Sending(s.phases, s.sent)
    && Flowing(All(c), Flow(s), s.sent)
    && Ending(s)
  }

  lemma {:induction false} ResultsPrefix<P>(tree: seq<File<P>>, maxSize: int, n: nat)
    requires n <= |tree|
    ensures Results(tree[..n], maxSize) <= Results(tree, maxSize)
  {
    if n == |tree| {
      assert tree[..n] == tree;
    } else {
      assert tree[..|tree| - 1][..n] == tree[..n];
      ResultsPrefix(tree[..|tree| - 1], maxSize, n);
    }
  }

  lemma InitInv<P>(c: Config<P>)
    ensures Inv(c, Init<P>())
  {
    assert c.tree[..0] == [];
  }

  lemma SpawnInv<P>(c: Config<P>, s: State<P>)
    requires Inv(c, s) && Enabled(c, s, Spawn)
    ensures Inv(c, Apply(c, s, Spawn))
  {
    hide FlowOf, IsEligible, Flowing;
    var n := s.caller.next;
    assert c.tree[..n + 1][..n] == c.tree[..n];
    ResultsPrefix(c.tree, c.maxSize, n + 1);
    CountAppend(s.phases, Running, Running);
  }

  lemma SendInv<P>(c: Config<P>, s: State<P>, w: nat)
    requires Inv(c, s) && Enabled(c, s, Send(w))
    ensures Inv(c, Apply(c, s, Send(w)))
  {
    hide Results, Spawned, FlowOf;
    var t := Apply(c, s, Send(w));
    SentOnce(s.phases, s.sent, w);
    FlowAppend(s.prompts, s.collector == Crashed, s.channel, All(c)[w]);
    hide Sending;
  }

  lemma SentOnce(phases: seq<Phase>, sent: seq<nat>, w: nat)
    requires Sending(phases, sent) && w < |phases| && phases[w] == Running
    ensures Sending(phases[w := Sent], sent + [w])
  {
    CountUpdate(phases, w, Sent, Running);
    assert w !in sent;
    forall v: nat ensures v in sent + [w] <==> v < |phases| && phases[w := Sent][v] != Running {
      assert v in sent + [w] <==> v in sent || v == w;
    }
  }

  lemma FlowAppend<P>(prompts: seq<P>, crashed: bool, channel: seq<Option<P>>, p: Option<P>)
    ensures FlowOf(prompts, crashed, channel + [p]) == FlowOf(prompts, crashed, channel) + [p]
  {}

  lemma FlowReceived<P>(prompts: seq<P>, channel: seq<Option<P>>)
    requires channel != []
    ensures channel[0].Some? ==> FlowOf(prompts + [channel[0].value], false, channel[1..]) == FlowOf(prompts, false, channel)
    ensures channel[0].None? ==> FlowOf(prompts, true, channel[1..]) == FlowOf(prompts, false, channel)
  {
    assert channel == [channel[0]] + channel[1..];
    if channel[0].Some? {
      assert Wrap(prompts + [channel[0].value]) == Wrap(prompts) + [channel[0]];
    }
  }

  lemma ReceiveInv<P>(c: Config<P>, s: State<P>)
    requires Inv(c, s) && Enabled(c, s, Receive)
    ensures Inv(c, Apply(c, s, Receive))
  {
    hide FlowOf, Flowing, Sending, Spawned;
    FlowReceived(s.prompts, s.channel);
  }

  lemma OtherInv<P>(c: Config<P>, s: State<P>, step: Step)
    requires Inv(c, s) && Enabled(c, s, step)
    requires step.SpawnOver? || step.Close? || step.CollectorEnd? || step.Return?
    ensures Inv(c, Apply(c, s, step))
  {
    hide Spawned, Sending, Flowing, FlowOf, Results;
  }

  lemma DoneInv<P>(c: Config<P>, s: State<P>, w: nat)
    requires Inv(c, s) && Enabled(c, s, WorkerDone(w))
    ensures Inv(c, Apply(c, s, WorkerDone(w)))
  {
    hide Flowing, FlowOf, Spawned, Results;
    CountUpdate(s.phases, w, Done, Running);
  }

  lemma StepInv<P>(c: Config<P>, s: State<P>, step: Step)
    requires Inv(c, s) && Enabled(c, s, step)
    ensures Inv(c, Apply(c, s, step))
  {
    hide *;
    match step
    case Spawn => SpawnInv(c, s);
    case Send(w) => SendInv(c, s, w);
    case WorkerDone(w) => DoneInv(c, s, w);
    case Receive => ReceiveInv(c, s);
    case _ => OtherInv(c, s, step);
  }

  lemma {:induction false} EveryRunKeepsInv<P>(c: Config<P>, s: State<P>, steps: seq<Step>)
    requires Inv(c, s) && IsRun(c, s, steps)
    ensures Inv(c, End(c, s, steps))
    decreases |steps|
  {
    if steps != [] {
      StepInv(c, s, steps[0]);
      EveryRunKeepsInv(c, Apply(c, s, steps[0]), steps[1..]);
    }
  }

  // In every reachable state a worker that has parsed its file can send at once: the
  // channel has room and is open.
  lemma SendNeverBlocks<P>(c: Config<P>, steps: seq<Step>, w: nat)
    requires IsRun(c, Init<P>(), steps)
    requires var s := End(c, Init<P>(), steps);
             w < |s.phases| && s.phases[w] == Running && s.collector != Crashed
    ensures Enabled(c, End(c, Init<P>(), steps), Send(w))
  {
    InitInv(c);
    EveryRunKeepsInv(c, Init<P>(), steps);
    var s := End(c, Init<P>(), steps);
    CountZero(s.phases, Running);
    ResultsPrefix(c.tree, c.maxSize, Seen(c, s));
    assert |s.channel| <= |Flow(s)|;
  }

  // A returned list holds exactly one entry per eligible file: entry k is the parse of
  // file sent[k], and sent names every eligible file once. The collector has ended, so
  // nothing is appended after the list is read, and every parse succeeded.
  lemma ReturnedComplete<P>(c: Config<P>, steps: seq<Step>)
    requires IsRun(c, Init<P>(), steps)
    requires End(c, Init<P>(), steps).caller == Returned
    ensures var s := End(c, Init<P>(), steps);
            && s.collector == Ended
            && |s.prompts| == |s.sent| == |All(c)|
            && Distinct(s.sent)
            && (forall w: nat :: w in s.sent <==> w < |All(c)|)
            && (forall k | 0 <= k < |s.prompts| :: s.sent[k] < |All(c)| && Some(s.prompts[k]) == All(c)[s.sent[k]])
    ensures forall w | 0 <= w < |All(c)| :: All(c)[w].Some?
  {
    InitInv(c);
    EveryRunKeepsInv(c, Init<P>(), steps);
    ReturnedFacts(c, End(c, Init<P>(), steps));
  }

  lemma ReturnedFacts<P>(c: Config<P>, s: State<P>)
    requires Inv(c, s) && s.caller == Returned
    ensures s.collector == Ended && |s.prompts| == |s.sent| == |All(c)| && Distinct(s.sent)
    ensures forall w: nat :: w in s.sent <==> w < |All(c)|
    ensures forall k | 0 <= k < |s.prompts| :: s.sent[k] < |All(c)| && Some(s.prompts[k]) == All(c)[s.sent[k]]
    ensures forall w | 0 <= w < |All(c)| :: All(c)[w].Some?
  {
    assert c.tree[..|c.tree|] == c.tree;
    CountZero(s.phases, Running);
    hide Results;
    assert Flow(s) == Wrap(s.prompts);
    hide FlowOf;
    forall w: nat | w < |All(c)| ensures All(c)[w].Some? {
      assert w in s.sent;
      var k :| 0 <= k < |s.sent| && s.sent[k] == w;
      assert Flow(s)[k] == Some(s.prompts[k]);
    }
  }

  // A crash comes from a file whose parse failed.
  lemma CrashedNeedsFailure<P>(c: Config<P>, steps: seq<Step>)
    requires IsRun(c, Init<P>(), steps)
    requires End(c, Init<P>(), steps).collector == Crashed
    ensures exists w :: 0 <= w < |All(c)| && All(c)[w] == None
  {
    InitInv(c);
    EveryRunKeepsInv(c, Init<P>(), steps);
    var s := End(c, Init<P>(), steps);
    ResultsPrefix(c.tree, c.maxSize, Seen(c, s));
    var k := |s.prompts|;
    assert Flow(s)[k] == None;
    assert s.sent[k] in s.sent;
  }

  // ---------------------------------------------------------------- progress and end

  ghost predicate Final<P>(s: State<P>) { s.caller == Returned || s.collector == Crashed }

  ghost predicate Stuck<P>(c: Config<P>, s: State<P>) { forall step :: !Enabled(c, s, step) }

  lemma Progress<P>(c: Config<P>, s: State<P>) returns (step: Step)
    requires Inv(c, s) && !Final(s)
    ensures Enabled(c, s, step)
  {
    CountZero(s.phases, Running);
    ResultsPrefix(c.tree, c.maxSize, Seen(c, s));
    if w: nat :| w < |s.phases| && s.phases[w] == Running {
      step := Send(w);
    } else if w: nat :| w < |s.phases| && s.phases[w] == Sent {
      step := WorkerDone(w);
    } else {
      assert AllDone(s);
      match s.caller
      case Spawning(next) => step := if next == |c.tree| then SpawnOver else Spawn;
      case Waiting => step := Close;
      case AwaitingCollector =>
        step := if s.collector == Ended then Return else if s.channel == [] then CollectorEnd else Receive;
    }
  }

  function CallerRank(caller: Caller, total: nat): int {
    match caller
    case Spawning(next) => 5 * (total - next) + 3
    case Waiting => 2
    case AwaitingCollector => 1
    case Returned => 0
  }

  function Measure<P>(c: Config<P>, s: State<P>): int {
    CallerRank(s.caller, |c.tree|) + 3 * Count(s.phases, Running) + Count(s.phases, Sent) + |s.channel|
    + if s.collector == Receiving then 1 else 0
  }

  lemma StepDecreases<P>(c: Config<P>, s: State<P>, step: Step)
    requires Inv(c, s) && Enabled(c, s, step)
    ensures 0 <= Measure(c, Apply(c, s, step)) < Measure(c, s)
  {
    hide FlowOf, Results, IsEligible;
    match step
    case Spawn =>
      CountAppend(s.phases, Running, Running);
      CountAppend(s.phases, Running, Sent);
    case Send(w) =>
      CountUpdate(s.phases, w, Sent, Running);
      CountUpdate(s.phases, w, Sent, Sent);
    case WorkerDone(w) =>
      CountUpdate(s.phases, w, Done, Running);
      CountUpdate(s.phases, w, Done, Sent);
    case _ =>
  }

  lemma {:induction false} RunsAreFinite<P>(c: Config<P>, s: State<P>, steps: seq<Step>)
    requires Inv(c, s) && IsRun(c, s, steps)
    ensures |steps| + Measure(c, End(c, s, steps)) <= Measure(c, s)
    ensures Measure(c, Init<P>()) == 5 * |c.tree| + 4
    decreases |steps|
  {
    if steps != [] {
      StepInv(c, s, steps[0]);
      StepDecreases(c, s, steps[0]);
      RunsAreFinite(c, Apply(c, s, steps[0]), steps[1..]);
    }
  }

  // Every interleaving that cannot go on has returned if every eligible file parses, and
  // has crashed on a nil result otherwise: the outcome does not depend on the schedule.
  lemma OutcomeIff<P>(c: Config<P>, steps: seq<Step>)
    requires IsRun(c, Init<P>(), steps) && Stuck(c, End(c, Init<P>(), steps))
    ensures var s := End(c, Init<P>(), steps);
            && (s.caller == Returned <==> forall w | 0 <= w < |All(c)| :: All(c)[w].Some?)
            && (s.collector == Crashed <==> exists w :: 0 <= w < |All(c)| && All(c)[w] == None)
  {
    InitInv(c);
    EveryRunKeepsInv(c, Init<P>(), steps);
    var s := End(c, Init<P>(), steps);
    if !Final(s) {
      var step := Progress(c, s);
      assert false;
    }
    if s.caller == Returned {
      ReturnedComplete(c, steps);
    } else {
      CrashedNeedsFailure(c, steps);
    }
  }

  // The last six characters are .jsonl in lower or upper case.
  predicate EndsInJsonl(path: string) {
    && |path| >= 6
    && path[|path| - 6] == '.'
    && path[|path| - 5] in {'j', 'J'} && path[|path| - 4] in {'s', 'S'} && path[|path| - 3] in {'o', 'O'}
    && path[|path| - 2] in {'n', 'N'} && path[|path| - 1] in {'l', 'L'}
  }

  lemma {:induction false} LowerAt(s: string, k: nat)
    requires k < |s|
    ensures ToLower(s)[k] == Lower(s[k])
  {
    if k > 0 {
      LowerAt(s[1..], k - 1);
    }
  }

  lemma LowerIs(c: char, l: char)
    requires 'a' <= l <= 'z' || l == '.'
    ensures Lower(c) == l <==> c == l || ('a' <= l <= 'z' && c as int == l as int - 32)
  {}

  // A file is eligible when it is no LFS file, not too large, and named .jsonl.
  lemma EligibleIff<P>(f: File<P>, maxSize: int)
    ensures IsEligible(f, maxSize) <==> !f.lfs && f.size <= maxSize && EndsInJsonl(f.path)
  {
    var p, n := f.path, |f.path|;
    if n >= 6 {
      LowerAt(p, n - 6);
      LowerAt(p, n - 5);
      LowerAt(p, n - 4);
      LowerAt(p, n - 3);
      LowerAt(p, n - 2);
      LowerAt(p, n - 1);
      LowerIs(p[n - 6], '.');
      LowerIs(p[n - 5], 'j');
      LowerIs(p[n - 4], 's');
      LowerIs(p[n - 3], 'o');
      LowerIs(p[n - 2], 'n');
      LowerIs(p[n - 1], 'l');
      hide Lower, ToLower;
      var l := ToLower(p);
      assert l[n - 6..] == [l[n - 6], l[n - 5], l[n - 4], l[n - 3], l[n - 2], l[n - 1]];
    }
  }

  // The parses that are waited for: one for each eligible file, in listing order.
  lemma AllOneMore<P>(tree: seq<File<P>>, f: File<P>, maxSize: int)
    ensures Results(tree + [f], maxSize)
         == Results(tree, maxSize) + if !f.lfs && f.size <= maxSize && EndsInJsonl(f.path) then [f.parsed] else []
  {
    EligibleIff(f, maxSize);
    assert (tree + [f])[..|tree|] == tree;
  }

  // After a crash nothing happens any more: no list is returned.
  lemma NothingAfterCrash<P>(c: Config<P>, s: State<P>, steps: seq<Step>)
    requires s.collector == Crashed && IsRun(c, s, steps)
    ensures steps == []
  {}
}
