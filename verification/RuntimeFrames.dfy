// ListRuntimeFrameworkV2 (component/repo_deploy.go): runtime frameworks grouped by name,
// with vllm moved to the front for inference.
module RuntimeFrames {
  import opened Text
  import opened Wrappers

  const VLLM := "vllm"

  const GPU := "gpu"

  // driver is the driver version as its place in the order of versions; None when the
  // text stored for it is not a version.
  datatype Frame = Frame(id: int, name: string, image: string, computeType: string, driver: Option<int>)

  // The driver version the system is configured with, if any.
  datatype System = NotConfigured | Unparsable | Configured(version: int)

  datatype Check = Skip | Accept | Crash

  // The driver check of one frame. The errors of parsing are dropped, and comparing with a
  // version that was not parsed panics.
  function DriverCheck(system: System, f: Frame): Check {
    if system.NotConfigured? || f.computeType != GPU then Accept
    else if system.Unparsable? || f.driver.None? then Crash
    else if f.driver.value > system.version then Skip
    else Accept
  }

  datatype Version = Version(frame: Frame, tag: string)

  datatype Group = Group(name: string, versions: seq<Version>, computeTypes: seq<string>)

  // The code takes the piece of the image behind the first colon and panics without one.
  predicate HasTag(f: Frame) { |Split(f.image, ":")| > 1 }

  function ToVersion(f: Frame): Version
    requires HasTag(f)
  {
    Version(f, Split(f.image, ":")[1])
  }

  predicate Panics(system: System, f: Frame) {
    DriverCheck(system, f) == Crash || (DriverCheck(system, f) == Accept && !HasTag(f))
  }

  predicate Listable(system: System, frames: seq<Frame>) { forall i | 0 <= i < |frames| :: !Panics(system, frames[i]) }

  // ---------------------------------------------------------------- what is wanted

  function Accepted(system: System, frames: seq<Frame>): seq<Frame> {
    if frames == [] then []
    else
      Accepted(system, frames[..|frames| - 1]) +
      if DriverCheck(system, frames[|frames| - 1]) == Accept then [frames[|frames| - 1]] else []
  }

  // The names in order of first appearance.
  function Names(frames: seq<Frame>): seq<string> {
    if frames == [] then []
    else
      var names := Names(frames[..|frames| - 1]);
      if frames[|frames| - 1].name in names then names else names + [frames[|frames| - 1].name]
  }

  // The frames of a name, in order.
  function VersionsOf(frames: seq<Frame>, name: string): seq<Version>
    requires Taggable(frames)
  {
    if frames == [] then []
    else
      VersionsOf(frames[..|frames| - 1], name) +
      if frames[|frames| - 1].name == name then [ToVersion(frames[|frames| - 1])] else []
  }

  // Their compute types, each once, in order of first appearance.
  function TypesOf(frames: seq<Frame>, name: string): seq<string> {
    if frames == [] then []
    else
      var types := TypesOf(frames[..|frames| - 1], name);
      var f := frames[|frames| - 1];
      if f.name != name || f.computeType in types then types else types + [f.computeType]
  }

  predicate Taggable(frames: seq<Frame>) { forall i | 0 <= i < |frames| :: HasTag(frames[i]) }

  function Grouped(frames: seq<Frame>): (groups: seq<Group>)
    requires Taggable(frames)
    ensures |groups| == |Names(frames)|
    ensures forall k | 0 <= k < |groups| :: groups[k].name == Names(frames)[k]
  {
    var names := Names(frames);
    seq(|names|, k requires 0 <= k < |names| => Group(names[k], VersionsOf(frames, names[k]), TypesOf(frames, names[k])))
  }

  // ---------------------------------------------------------------- grouping

  lemma {:induction false} AcceptedTaggable(system: System, frames: seq<Frame>)
    requires Listable(system, frames)
    ensures Taggable(Accepted(system, frames))
  {
    if frames != [] {
      AcceptedTaggable(system, frames[..|frames| - 1]);
    }
  }

  lemma {:induction false} NamesFacts(frames: seq<Frame>)
    ensures forall i, j | 0 <= i < j < |Names(frames)| :: Names(frames)[i] != Names(frames)[j]
    ensures forall name :: name in Names(frames) <==> exists i :: 0 <= i < |frames| && frames[i].name == name
  {
    if frames != [] {
      var init := frames[..|frames| - 1];
      NamesFacts(init);
      forall name ensures name in Names(frames) <==> exists i :: 0 <= i < |frames| && frames[i].name == name {
        if i :| 0 <= i < |frames| && frames[i].name == name {
          assert i < |init| ==> init[i].name == name;
        }
        if name in Names(init) {
          var i :| 0 <= i < |init| && init[i].name == name;
          assert frames[i].name == name;
        }
      }
    }
  }

  lemma {:induction false} NothingUnderNewName(frames: seq<Frame>, name: string)
    requires Taggable(frames) && name !in Names(frames)
    ensures VersionsOf(frames, name) == [] && TypesOf(frames, name) == []
  {
    if frames != [] {
      NothingUnderNewName(frames[..|frames| - 1], name);
    }
  }

  // What the arrival of one more frame does to the groups.
  function Added(g: Group, f: Frame): Group
    requires HasTag(f)
  {
    Group(g.name, g.versions + [ToVersion(f)],
          if f.computeType in g.computeTypes then g.computeTypes else g.computeTypes + [f.computeType])
  }

  lemma GroupedNext(frames: seq<Frame>, f: Frame, k: nat)
    requires Taggable(frames + [f]) && Taggable(frames) && HasTag(f)
    requires k < |Names(frames)| ==> Names(frames)[k] == f.name
    requires k >= |Names(frames)| ==> k == |Names(frames)| && f.name !in Names(frames)
    ensures var gs := Grouped(frames);
            Grouped(frames + [f]) == if k < |gs| then gs[k := Added(gs[k], f)] else gs + [Added(Group(f.name, [], []), f)]
  {
    hide *;
    NextLength(frames, f, k);
    forall i | 0 <= i < |Grouped(frames + [f])| {
      NextAt(frames, f, k, i);
    }
  }

  lemma NextAt(frames: seq<Frame>, f: Frame, k: nat, i: nat)
    requires Taggable(frames + [f]) && Taggable(frames) && HasTag(f) && i < |Grouped(frames + [f])|
    requires k < |Names(frames)| ==> Names(frames)[k] == f.name
    requires k >= |Names(frames)| ==> k == |Names(frames)| && f.name !in Names(frames)
    ensures i < |Grouped(frames)| || i == k
    ensures var gs := Grouped(frames);
            Grouped(frames + [f])[i]
              == if i != k then gs[i] else Added(if k < |gs| then gs[k] else Group(f.name, [], []), f)
  {
    NextLength(frames, f, k);
    NextNames(frames, f);
    NamesFacts(frames);
    hide HasTag, Names, VersionsOf, TypesOf, Taggable, Grouped;
    if k == |Names(frames)| {
      NothingUnderNewName(frames, f.name);
    }
    GroupedAt(frames + [f], i);
    if i < |Grouped(frames)| { GroupedAt(frames, i); }
    NextUnder(frames, f, Names(frames + [f])[i]);
  }

  lemma NextLength(frames: seq<Frame>, f: Frame, k: nat)
    requires Taggable(frames + [f]) && Taggable(frames)
    requires k < |Names(frames)| ==> Names(frames)[k] == f.name
    requires k >= |Names(frames)| ==> k == |Names(frames)| && f.name !in Names(frames)
    ensures |Grouped(frames + [f])| == if k < |Grouped(frames)| then |Grouped(frames)| else |Grouped(frames)| + 1
  {
    NextNames(frames, f);
    hide Names, Grouped;
  }

  lemma GroupedAt(frames: seq<Frame>, i: nat)
    requires Taggable(frames) && i < |Names(frames)|
    ensures var name := Names(frames)[i]; Grouped(frames)[i] == Group(name, VersionsOf(frames, name), TypesOf(frames, name))
  {}

  lemma NextNames(frames: seq<Frame>, f: Frame)
    ensures Names(frames + [f]) == if f.name in Names(frames) then Names(frames) else Names(frames) + [f.name]
  {
    assert (frames + [f])[..|frames|] == frames;
  }

  lemma NextUnder(frames: seq<Frame>, f: Frame, name: string)
    requires Taggable(frames + [f]) && Taggable(frames) && HasTag(f)
    ensures VersionsOf(frames + [f], name) == VersionsOf(frames, name) + if f.name == name then [ToVersion(f)] else []
    ensures TypesOf(frames + [f], name) ==
              if f.name != name || f.computeType in TypesOf(frames, name) then TypesOf(frames, name) else TypesOf(frames, name) + [f.computeType]
  {
    assert (frames + [f])[..|frames|] == frames;
  }

  method CheckFrameNameExist(name: string, list: seq<Group>) returns (exist: bool, index: nat)
    ensures exist ==> index < |list| && list[index].name == name
    ensures !exist ==> forall i | 0 <= i < |list| :: list[i].name != name
  {
    for i := 0 to |list|
      invariant forall j | 0 <= j < i :: list[j].name != name
    {
      if name == list[i].name {
        return true, i;
      }
    }
    return false, 0;
  }

  // One turn of the loop.
  method AddFrame(ghost seen: seq<Frame>, list: seq<Group>, f: Frame) returns (frameList: seq<Group>)
    requires Taggable(seen) && HasTag(f) && list == Grouped(seen)
    ensures Taggable(seen + [f]) && frameList == Grouped(seen + [f])
  {
    hide HasTag, Names, Taggable, VersionsOf, TypesOf, Grouped;
    TaggableAppend(seen, f);
    frameList := list;
    var exist, index := CheckFrameNameExist(f.name, frameList);
    if !exist {
      NameAbsent(seen, f.name);
      frameList := frameList + [Group(f.name, [], [])];
      index := |frameList| - 1;
    }
    GroupedNext(seen, f, index);
    hide ToVersion;
    var g := frameList[index].(versions := frameList[index].versions + [ToVersion(f)]);
    if f.computeType !in g.computeTypes {
      g := g.(computeTypes := g.computeTypes + [f.computeType]);
    }
    assert g == Added(frameList[index], f);
    frameList := frameList[index := g];
  }

  lemma TaggableAppend(frames: seq<Frame>, f: Frame)
    requires Taggable(frames) && HasTag(f)
    ensures Taggable(frames + [f])
  {}

  // The loop over the frames. It panics at the first frame whose driver check does, or
  // which is accepted and has no tag.
  method GroupFrames(system: System, frames: seq<Frame>) returns (panicked: bool, frameList: seq<Group>)
    ensures panicked <==> !Listable(system, frames)
    ensures !panicked ==> Taggable(Accepted(system, frames)) && frameList == Grouped(Accepted(system, frames))
  {
    hide HasTag, Grouped, Accepted, Panics, DriverCheck;
    GroupedNone();
    AcceptedNone(system);
    frameList := [];
    for n := 0 to |frames|
      invariant forall i | 0 <= i < n :: !Panics(system, frames[i])
      invariant Taggable(Accepted(system, frames[..n])) && frameList == Grouped(Accepted(system, frames[..n]))
    {
      var f := frames[n];
      assert frames[..n + 1][..n] == frames[..n];
      AcceptedNext(system, frames, n);
      CheckIs(system, f);
      if system != NotConfigured && f.computeType == GPU {
        if system.Unparsable? || f.driver.None? {
          return true, [];
        }
        if f.driver.value > system.version {
          continue;
        }
      }
      if !HasTag(f) {
        return true, [];
      }
      frameList := AddFrame(Accepted(system, frames[..n]), frameList, f);
    }
    assert frames[..|frames|] == frames;
    panicked := false;
  }

  // With a system version that is a version, a GPU frame whose driver version is not one
  // panics, although its image has a tag.
  lemma DriverTextPanics(version: int, id: int, name: string)
    ensures var f := Frame(id, name, "vllm:1", GPU, None);
            HasTag(f) && !Listable(Configured(version), [f]) && Listable(NotConfigured, [f])
  {
    var f := Frame(id, name, "vllm:1", GPU, None);
    assert "vllm" + ":" + "1" == "vllm:1";
    OneColon("vllm", "1");
    assert Panics(Configured(version), [f][0]);
  }

  lemma OneColon(head: string, tail: string)
    requires ':' !in head
    ensures |Split(head + ":" + tail, ":")| > 1
  {
    forall i | 0 <= i < |head| ensures !MatchAt(head + ":", ":", i) {
      assert (head + ":")[i..i + 1] == [head[i]];
    }
    SplitClean(head, ":", tail);
  }

  // A system version that is not one panics on the first GPU frame.
  lemma UnparsableSystemIff(frames: seq<Frame>)
    ensures Listable(Unparsable, frames) <==> forall i | 0 <= i < |frames| :: frames[i].computeType != GPU && HasTag(frames[i])
  {
    hide HasTag;
    if Listable(Unparsable, frames) {
      forall i | 0 <= i < |frames| ensures frames[i].computeType != GPU && HasTag(frames[i]) {
        assert !Panics(Unparsable, frames[i]);
      }
    }
  }

  lemma AcceptedNone(system: System)
    ensures Accepted(system, []) == []
  {}

  // What the code tests, in terms of the check.
  lemma CheckIs(system: System, f: Frame)
    ensures DriverCheck(system, f) ==
              if system != NotConfigured && f.computeType == GPU then
                if system.Unparsable? || f.driver.None? then Crash else if f.driver.value > system.version then Skip else Accept
              else Accept
    ensures Panics(system, f) <==> DriverCheck(system, f) == Crash || (DriverCheck(system, f) == Accept && !HasTag(f))
  {}

  lemma AcceptedNext(system: System, frames: seq<Frame>, n: nat)
    requires n < |frames|
    ensures Accepted(system, frames[..n + 1]) == if DriverCheck(system, frames[n]) == Accept then Accepted(system, frames[..n]) + [frames[n]] else Accepted(system, frames[..n])
  {
    assert frames[..n + 1][..n] == frames[..n];
  }

  lemma GroupedNone()
    ensures Grouped([]) == []
  {}

  lemma NameAbsent(frames: seq<Frame>, name: string)
    requires Taggable(frames) && forall i | 0 <= i < |Grouped(frames)| :: Grouped(frames)[i].name != name
    ensures name !in Names(frames)
  {
    assert forall i | 0 <= i < |Names(frames)| :: Names(frames)[i] == Grouped(frames)[i].name;
  }

  // ---------------------------------------------------------------- nothing lost

  function Flatten(groups: seq<Group>): seq<Version> {
    if groups == [] then [] else groups[0].versions + Flatten(groups[1..])
  }

  lemma {:induction false} FlattenConcat(a: seq<Group>, b: seq<Group>)
    ensures Flatten(a + b) == Flatten(a) + Flatten(b)
  {
    if a == [] {
      assert a + b == b;
    } else {
      assert (a + b)[1..] == a[1..] + b;
      FlattenConcat(a[1..], b);
    }
  }

  function AllVersions(frames: seq<Frame>): seq<Version>
    requires Taggable(frames)
  {
    if frames == [] then [] else AllVersions(frames[..|frames| - 1]) + [ToVersion(frames[|frames| - 1])]
  }

  lemma FlattenUpdate(gs: seq<Group>, k: nat, g: Group, v: Version)
    requires k < |gs| && g.versions == gs[k].versions + [v]
    ensures multiset(Flatten(gs[k := g])) == multiset(Flatten(gs)) + multiset{v}
  {
    assert gs == gs[..k] + ([gs[k]] + gs[k + 1..]);
    assert gs[k := g] == gs[..k] + ([g] + gs[k + 1..]);
    FlattenConcat(gs[..k], [gs[k]] + gs[k + 1..]);
    FlattenConcat(gs[..k], [g] + gs[k + 1..]);
    FlattenConcat([gs[k]], gs[k + 1..]);
    FlattenConcat([g], gs[k + 1..]);
    FlattenOne(gs[k]);
    FlattenOne(g);
  }

  lemma FlattenOne(g: Group)
    ensures Flatten([g]) == g.versions
  {
    assert [g][1..] == [];
  }

  lemma OneMoreKept(frames: seq<Frame>, f: Frame)
    requires Taggable(frames + [f]) && Taggable(frames) && HasTag(f)
    ensures multiset(Flatten(Grouped(frames + [f]))) == multiset(Flatten(Grouped(frames))) + multiset{ToVersion(f)}
  {
    var gs, v := Grouped(frames), ToVersion(f);
    if f.name in Names(frames) {
      var k :| 0 <= k < |Names(frames)| && Names(frames)[k] == f.name;
      GroupedNext(frames, f, k);
      hide Grouped, HasTag, Flatten, Names;
      FlattenUpdate(gs, k, Added(gs[k], f), v);
    } else {
      GroupedNext(frames, f, |gs|);
      hide Grouped, HasTag, Flatten, Names;
      var g := Added(Group(f.name, [], []), f);
      FlattenConcat(gs, [g]);
      FlattenOne(g);
      assert g.versions == [v];
    }
  }

  // The groups together hold every accepted frame exactly as often as the input.
  lemma {:induction false} GroupedKeepsAll(frames: seq<Frame>)
    requires Taggable(frames)
    ensures multiset(Flatten(Grouped(frames))) == multiset(AllVersions(frames))
  {
    if frames != [] {
      var init, f := frames[..|frames| - 1], frames[|frames| - 1];
      GroupedKeepsAll(init);
      assert frames == init + [f];
      OneMoreKept(init, f);
      AllVersionsNext(init, f);
      hide *;
    }
  }

  lemma AllVersionsNext(frames: seq<Frame>, f: Frame)
    requires Taggable(frames + [f]) && Taggable(frames) && HasTag(f)
    ensures AllVersions(frames + [f]) == AllVersions(frames) + [ToVersion(f)]
  {
    assert (frames + [f])[..|frames|] == frames;
  }

  // ---------------------------------------------------------------- vllm first

  // The first group behind the front that is called vllm, or |groups|.
  function VllmIndex(groups: seq<Group>, from: nat): (i: nat)
    requires from <= |groups|
    ensures from <= i <= |groups|
    ensures forall j | from <= j < i :: groups[j].name != VLLM
    ensures i < |groups| ==> groups[i].name == VLLM
    decreases |groups| - from
  {
    if from == |groups| || groups[from].name == VLLM then from else VllmIndex(groups, from + 1)
  }

  function ToFront<T>(s: seq<T>, i: nat): seq<T>
    requires i < |s|
  {
    [s[i]] + s[..i] + s[i + 1..]
  }

  function VllmFirst(groups: seq<Group>): seq<Group> {
    if groups == [] then []
    else
      var i := VllmIndex(groups, 1);
      if i < |groups| then ToFront(groups, i) else groups
  }

  // The inner loop: swaps the element at i down to the front.
  method ShiftToFront<T>(a: array<T>, i: nat)
    requires i < a.Length
    modifies a
    ensures a[..] == ToFront(old(a[..]), i)
  {
    var j := i;
    while j > 0
      invariant 0 <= j <= i
      invariant a[j] == old(a[i])
      invariant forall k | 0 <= k < j :: a[k] == old(a[k])
      invariant forall k | j < k <= i :: a[k] == old(a[k - 1])
      invariant forall k | i < k < a.Length :: a[k] == old(a[k])
    {
      a[j], a[j - 1] := a[j - 1], a[j];
      j := j - 1;
    }
    ghost var want := ToFront(old(a[..]), i);
    forall k | 0 <= k < a.Length ensures a[..][k] == want[k] {}
    assert |a[..]| == |want|;
  }

  method PutVllmFirst(frameList: array<Group>)
    modifies frameList
    ensures frameList[..] == VllmFirst(old(frameList[..]))
  {
    for i := 0 to frameList.Length
      invariant frameList[..] == old(frameList[..])
      invariant i >= 1 ==> VllmIndex(frameList[..], 1) == VllmIndex(frameList[..], i)
    {
      if frameList[i].name == VLLM && i > 0 {
        ShiftToFront(frameList, i);
        return;
      }
    }
  }

  method ListRuntimeFrameworkV2(system: System, frames: seq<Frame>, inference: bool) returns (panicked: bool, list: seq<Group>)
    ensures panicked <==> !Listable(system, frames)
    ensures !panicked ==> Taggable(Accepted(system, frames))
    ensures !panicked ==> list == if inference then VllmFirst(Grouped(Accepted(system, frames))) else Grouped(Accepted(system, frames))
  {
    panicked, list := GroupFrames(system, frames);
    if !panicked && inference {
      var groups := list;
      var a := new Group[|groups|](i requires 0 <= i < |groups| => groups[i]);
      assert a[..] == groups;
      PutVllmFirst(a);
      list := a[..];
    }
  }

  function Others(groups: seq<Group>): seq<Group> {
    if groups == [] then []
    else (if groups[0].name == VLLM then [] else [groups[0]]) + Others(groups[1..])
  }

  lemma {:induction false} OthersConcat(a: seq<Group>, b: seq<Group>)
    ensures Others(a + b) == Others(a) + Others(b)
  {
    if a == [] {
      assert a + b == b;
    } else {
      assert (a + b)[1..] == a[1..] + b;
      OthersConcat(a[1..], b);
    }
  }

  lemma ToFrontOthers(groups: seq<Group>, i: nat)
    requires i < |groups| && groups[i].name == VLLM
    ensures Others(ToFront(groups, i)) == Others(groups)
  {
    hide Others;
    var a, v, b := groups[..i], groups[i], groups[i + 1..];
    assert groups == a + ([v] + b);
    assert ToFront(groups, i) == [v] + (a + b);
    hide ToFront;
    OthersOfVllm(v);
    VllmMoves(a, v, b);
  }

  lemma VllmMoves(a: seq<Group>, v: Group, b: seq<Group>)
    requires Others([v]) == []
    ensures Others([v] + (a + b)) == Others(a + ([v] + b))
  {
    hide Others;
    OthersConcat(a, [v] + b);
    OthersConcat([v], b);
    OthersConcat([v], a + b);
    OthersConcat(a, b);
  }

  lemma ToFrontPermutes<T>(s: seq<T>, i: nat)
    requires i < |s|
    ensures multiset(ToFront(s, i)) == multiset(s)
  {
    assert s == s[..i] + ([s[i]] + s[i + 1..]);
  }

  // A listing has its groups once each; moving vllm puts it first if it is there, keeps
  // the order of all others and loses nothing.
  lemma VllmFirstFacts(groups: seq<Group>)
    requires forall i, j | 0 <= i < j < |groups| :: groups[i].name != groups[j].name
    ensures (exists i :: 0 <= i < |groups| && groups[i].name == VLLM) ==> VllmFirst(groups)[0].name == VLLM
    ensures Others(VllmFirst(groups)) == Others(groups)
    ensures multiset(VllmFirst(groups)) == multiset(groups)
  {
    if groups != [] {
      var i := VllmIndex(groups, 1);
      if i < |groups| {
        ToFrontOthers(groups, i);
        ToFrontPermutes(groups, i);
      }
    }
  }

  lemma OthersOfVllm(v: Group)
    requires v.name == VLLM
    ensures Others([v]) == []
  {
    assert [v][1..] == [];
  }

  // The listing as a whole, for inference: vllm first if any accepted frame has it, all
  // groups of accepted frames kept once, the others in order.
  lemma ListingFacts(system: System, frames: seq<Frame>)
    requires Listable(system, frames)
    ensures Taggable(Accepted(system, frames))
    ensures var accepted := Accepted(system, frames);
            var list := VllmFirst(Grouped(accepted));
            && (VLLM in Names(accepted) ==> list != [] && list[0].name == VLLM)
            && multiset(list) == multiset(Grouped(accepted))
            && Others(list) == Others(Grouped(accepted))
  {
    AcceptedTaggable(system, frames);
    VllmLeads(Accepted(system, frames));
  }

  lemma VllmLeads(frames: seq<Frame>)
    requires Taggable(frames)
    ensures var list := VllmFirst(Grouped(frames));
            && (VLLM in Names(frames) ==> list != [] && list[0].name == VLLM)
            && multiset(list) == multiset(Grouped(frames))
            && Others(list) == Others(Grouped(frames))
  {
    NamesFacts(frames);
    var gs := Grouped(frames);
    forall i, j | 0 <= i < j < |gs| ensures gs[i].name != gs[j].name {
      assert Names(frames)[i] != Names(frames)[j];
    }
    VllmFirstFacts(gs);
    if VLLM in Names(frames) {
      var i :| 0 <= i < |Names(frames)| && Names(frames)[i] == VLLM;
      assert gs[i].name == VLLM;
    }
  }

  // The version is the piece of the image behind the first colon, up to a second one.
  lemma VersionIsTag(f: Frame, head: string, tag: string, rest: string)
    requires ':' !in head && ':' !in tag && (f.image == head + ":" + tag || f.image == head + ":" + tag + ":" + rest)
    ensures HasTag(f) && ToVersion(f) == Version(f, tag)
  {
    NoColon(head);
    NoColon(tag);
    if f.image == head + ":" + tag {
      SplitClean(head, ":", tag);
      SplitFree(tag, ":");
    } else {
      assert f.image == head + ":" + (tag + ":" + rest);
      SplitClean(head, ":", tag + ":" + rest);
      SplitClean(tag, ":", rest);
    }
  }

  lemma NoColon(s: string)
    requires ':' !in s
    ensures Clean(s, ":") && Free(s, ":")
  {
    forall i | 0 <= i < |s| ensures !MatchAt(s + ":", ":", i) {
      assert (s + ":")[i..i + 1] == [s[i]];
    }
    forall i ensures !MatchAt(s, ":", i) {
      if 0 <= i < |s| { assert s[i..i + 1] == [s[i]]; }
    }
  }

  // The versions of a name are those of its frames, in order.
  lemma {:induction false} VersionsInOrder(a: seq<Frame>, b: seq<Frame>, name: string)
    requires Taggable(a) && Taggable(b) && Taggable(a + b)
    ensures VersionsOf(a + b, name) == VersionsOf(a, name) + VersionsOf(b, name)
    ensures |b| == 1 ==> VersionsOf(b, name) == if b[0].name == name then [ToVersion(b[0])] else []
    decreases |b|
  {
    if b == [] {
      assert a + b == a;
    } else {
      var init := b[..|b| - 1];
      assert (a + b)[..|a + b| - 1] == a + init;
      VersionsInOrder(a, init, name);
    }
  }

  // The frames that go into the listing: those without a driver check, and those whose
  // driver version is not above the system's.
  lemma {:induction false} AcceptedAre(system: System, frames: seq<Frame>)
    requires Listable(system, frames)
    ensures forall f :: f in Accepted(system, frames) <==>
              f in frames && (system == NotConfigured || f.computeType != "gpu" ||
                              (system.Configured? && f.driver.Some? && f.driver.value <= system.version))
  {
    if frames != [] {
      var init, last := frames[..|frames| - 1], frames[|frames| - 1];
      assert frames == init + [last];
      assert forall i | 0 <= i < |init| :: init[i] == frames[i];
      AcceptedAre(system, init);
      assert !Panics(system, frames[|frames| - 1]);
    }
  }

  // The group that is moved is the one called vllm.
  lemma VllmNamed(groups: seq<Group>, i: nat)
    requires 0 < i < |groups| && groups[i].name == "vllm" && forall j | 0 <= j < i :: groups[j].name != "vllm"
    ensures VllmFirst(groups) == [groups[i]] + groups[..i] + groups[i + 1..]
  {
    assert VllmIndex(groups, 1) == i;
  }
}
