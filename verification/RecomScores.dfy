// Recommendation scores (component/recom.go): the total of a repository is recomputed
// from its parts. float64 is modelled by real; the score scripts and the quality check
// are inputs.
module RecomScores {
  import opened Wrappers
  import opened Sums

  // The weight names the code knows, and any other name found in the table.
  datatype Weight = Freshness | Downloads | Quality | Op | Total | Other(name: string)

  // One repository's inputs: the script results (None when the weight is not configured),
  // whether the repository changed after its quality was scored, and what the quality
  // check gives (None is its error).
  datatype Inputs = Inputs(freshness: Option<real>, downloads: Option<real>, qualityDue: bool, quality: Option<real>)

  datatype Score = Score(name: Weight, value: real)

  function Get(m: map<Weight, real>, name: Weight): real { if name in m then m[name] else 0.0 }

  function OrZero(v: Option<real>): real { if v.Some? then v.value else 0.0 }

  // ---------------------------------------------------------------- what is wanted

  predicate Fails(i: Inputs) { i.qualityDue && i.quality.None? }

  // The non-total scores a repository should have, given the ones it has.
  function Wanted(i: Inputs, before: map<Weight, real>): map<Weight, real>
    requires !Fails(i)
  {
    before[Freshness := OrZero(i.freshness)]
          [Downloads := OrZero(i.downloads)]
          [Quality := if i.qualityDue then i.quality.value else Get(before, Quality)] - {Total}
  }

  function ValueOf(s: Score): real { s.value }

  predicate DistinctNames(scores: seq<Score>) { forall a, b | 0 <= a < b < |scores| :: scores[a].name != scores[b].name }

  // The list holds exactly the scores of the map, each once.
  ghost predicate Lists(parts: seq<Score>, m: map<Weight, real>) {
    && DistinctNames(parts)
    && (forall s | s in parts :: s.name in m && m[s.name] == s.value)
    && (forall name | name in m :: Score(name, m[name]) in parts)
  }

  // A result of calcTotalScore: the parts in some order, then their sum as the total.
  ghost predicate IsResult(i: Inputs, before: map<Weight, real>, result: seq<Score>)
    requires !Fails(i)
  {
    && result != []
    && Lists(result[..|result| - 1], Wanted(i, before))
    && result[|result| - 1] == Score(Total, Sum(result[..|result| - 1], ValueOf))
  }

  // ---------------------------------------------------------------- the calculation

  class Record {
    const name: Weight
    var score: real

    constructor (name: Weight, score: real)
      ensures this.name == name && this.score == score
    {
      this.name := name;
      this.score := score;
    }
  }

  ghost predicate ByName(records: map<Weight, Record>) { forall n | n in records :: records[n].name == n }

  function Values(records: map<Weight, Record>): map<Weight, real>
    reads records.Values
  {
    map n | n in records :: records[n].score
  }

  function View(records: seq<Record>): (v: seq<Score>)
    reads records
    ensures |v| == |records|
    ensures forall k | 0 <= k < |records| :: v[k] == Score(records[k].name, records[k].score)
  {
    seq(|records|, k requires 0 <= k < |records| reads records => Score(records[k].name, records[k].score))
  }

  method FindOrNew(oldScores: map<Weight, Record>, name: Weight) returns (r: Record)
    requires ByName(oldScores)
    ensures r.name == name && r.score == Get(Values(oldScores), name)
    ensures name in oldScores ==> r == oldScores[name]
    ensures name !in oldScores ==> fresh(r)
  {
    if name in oldScores {
      r := oldScores[name];
    } else {
      r := new Record(name, 0.0);
    }
  }

  function Computed(i: Inputs, before: map<Weight, real>): map<Weight, real>
    requires !Fails(i)
  {
    map[Freshness := OrZero(i.freshness), Downloads := OrZero(i.downloads),
        Quality := if i.qualityDue then i.quality.value else Get(before, Quality)]
  }

  // Find or create the record of a name and set its score; no other record changes.
  method Put(oldScores: map<Weight, Record>, name: Weight, v: real) returns (r: Record)
    requires ByName(oldScores)
    modifies oldScores.Values
    ensures r.name == name && r.score == v
    ensures name in oldScores ==> r == oldScores[name]
    ensures name !in oldScores ==> fresh(r)
    ensures forall n | n in oldScores && n != name :: oldScores[n].score == old(oldScores[n].score)
  {
    r := FindOrNew(oldScores, name);
    assert r !in oldScores.Values || r == oldScores[name];
    r.score := v;
  }

  // The three scores that are computed here.
  method ComputedScores(i: Inputs, oldScores: map<Weight, Record>) returns (ok: bool, fscore: Record, dscore: Record, qscore: Record)
    requires ByName(oldScores)
    modifies oldScores.Values
    ensures ok <==> !Fails(i)
    ensures fscore.name == Freshness && fscore.score == OrZero(i.freshness)
    ensures dscore.name == Downloads && dscore.score == OrZero(i.downloads)
    ensures qscore.name == Quality
    ensures ok ==> qscore.score == if i.qualityDue then i.quality.value else Get(old(Values(oldScores)), Quality)
    ensures forall n | n in oldScores && n != Freshness && n != Downloads && n != Quality ::
              oldScores[n].score == old(oldScores[n].score)
  {
    fscore := Put(oldScores, Freshness, OrZero(i.freshness));
    dscore := Put(oldScores, Downloads, OrZero(i.downloads));
    qscore := FindOrNew(oldScores, Quality);
    ok := true;
    if i.qualityDue {
      if i.quality.None? {
        ok := false;
      } else {
        qscore.score := i.quality.value;
      }
    }
  }

  function ThreeOf(m: map<Weight, real>): seq<Score>
    requires Freshness in m && Downloads in m && Quality in m
  {
    [Score(Freshness, m[Freshness]), Score(Downloads, m[Downloads]), Score(Quality, m[Quality])]
  }

  lemma ThreeListed(i: Inputs, before: map<Weight, real>)
    requires !Fails(i)
    ensures Lists(ThreeOf(Computed(i, before)), Computed(i, before))
  {
    var m := Computed(i, before);
    var three := ThreeOf(m);
    assert m.Keys == {Freshness, Downloads, Quality};
    assert three[0].name == Freshness && three[1].name == Downloads && three[2].name == Quality;
    assert Score(Freshness, m[Freshness]) == three[0] && Score(Downloads, m[Downloads]) == three[1]
        && Score(Quality, m[Quality]) == three[2];
  }

  // The scores not computed here are taken over as they are, in whatever order the map
  // gives them.
  method AppendOthers(records: seq<Record>, oldScores: map<Weight, Record>, ghost m: map<Weight, real>) returns (scores: seq<Record>)
    requires ByName(oldScores) && Lists(View(records), m)
    requires m.Keys == {Freshness, Downloads, Quality}
    ensures Lists(View(scores), (Values(oldScores) - {Total}) + m)
  {
    scores := records;
    var rest := oldScores.Keys - {Freshness, Downloads, Quality, Total};
    ghost var have, want := m, (Values(oldScores) - {Total}) + m;
    hide Lists;
    while rest != {}
      invariant rest <= oldScores.Keys && rest !! have.Keys
      invariant have.Keys + rest == want.Keys
      invariant forall n | n in have :: have[n] == want[n]
      invariant Lists(View(scores), have)
      decreases rest
    {
      var name :| name in rest;
      ListsAppend(View(scores), have, name, oldScores[name].score);
      assert View(scores + [oldScores[name]]) == View(scores) + [Score(name, oldScores[name].score)];
      have := have[name := oldScores[name].score];
      scores := scores + [oldScores[name]];
      rest := rest - {name};
    }
    assert have == want;
  }

  method SumOf(scores: seq<Record>) returns (total: real)
    ensures total == Sum(View(scores), ValueOf)
  {
    total := 0.0;
    for k := 0 to |scores|
      invariant total == Sum(View(scores)[..k], ValueOf)
    {
      SumNext(View(scores), k, ValueOf);
      total := total + scores[k].score;
    }
    assert View(scores)[..|scores|] == View(scores);
  }

  // calcTotalScore. The records of the repository are updated in place; an error in the
  // quality check ends it with no result.
  method CalcTotalScore(i: Inputs, oldScores: map<Weight, Record>) returns (ok: bool, scores: seq<Record>)
    requires ByName(oldScores)
    modifies oldScores.Values
    ensures ok <==> !(i.qualityDue && i.quality.None?)
    ensures ok ==> IsResult(i, old(Values(oldScores)), View(scores))
    ensures forall n | n in oldScores && n != Freshness && n != Downloads && n != Quality ::
              oldScores[n].score == old(oldScores[n].score)
  {
    ghost var before := Values(oldScores);
    var fscore, dscore, qscore;
    ok, fscore, dscore, qscore := ComputedScores(i, oldScores);
    if !ok {
      return false, [];
    }
    ViewThree(i, before, fscore, dscore, qscore);
    hide *;
    ThreeListed(i, before);
    scores := AppendOthers([fscore, dscore, qscore], oldScores, Computed(i, before));
    WantedSplit(i, before, Values(oldScores));
    ghost var parts := View(scores);
    var total := SumOf(scores);
    var tscore := new Record(Total, total);
    ViewAppend(scores, tscore);
    WithTotal(i, before, parts, total);
    scores := scores + [tscore];
  }

  lemma ViewThree(i: Inputs, before: map<Weight, real>, f: Record, d: Record, q: Record)
    requires !Fails(i) && f.name == Freshness && d.name == Downloads && q.name == Quality
    requires f.score == OrZero(i.freshness) && d.score == OrZero(i.downloads)
    requires q.score == if i.qualityDue then i.quality.value else Get(before, Quality)
    ensures View([f, d, q]) == ThreeOf(Computed(i, before))
  {}

  lemma ViewAppend(scores: seq<Record>, r: Record)
    ensures View(scores + [r]) == View(scores) + [Score(r.name, r.score)]
  {}

  lemma WithTotal(i: Inputs, before: map<Weight, real>, parts: seq<Score>, total: real)
    requires !Fails(i) && Lists(parts, Wanted(i, before)) && total == Sum(parts, ValueOf)
    ensures IsResult(i, before, parts + [Score(Total, total)])
  {
    assert (parts + [Score(Total, total)])[..|parts|] == parts;
  }

  // Only the three computed scores and the total differ from the scores before.
  lemma WantedSplit(i: Inputs, before: map<Weight, real>, now: map<Weight, real>)
    requires !Fails(i) && now.Keys == before.Keys
    requires forall n | n in now && n != Freshness && n != Downloads && n != Quality :: now[n] == before[n]
    ensures Computed(i, before).Keys == {Freshness, Downloads, Quality}
    ensures (now - {Total}) + Computed(i, before) == Wanted(i, before)
  {
  }

  lemma ListsAppend(parts: seq<Score>, m: map<Weight, real>, name: Weight, v: real)
    requires Lists(parts, m) && name !in m
    ensures Lists(parts + [Score(name, v)], m[name := v])
  {
    var more, m' := parts + [Score(name, v)], m[name := v];
    forall a, b | 0 <= a < b < |more| ensures more[a].name != more[b].name {
      if b == |parts| { assert parts[a] in parts; }
    }
    assert Score(name, v) == more[|parts|];
    forall n ensures n in m' ==> Score(n, m'[n]) in more {
      if n in m { assert Score(n, m[n]) in parts; }
    }
  }

  // ---------------------------------------------------------------- properties

  // Two lists of the same scores are permutations of each other.
  lemma ListsPermuted(a: seq<Score>, b: seq<Score>, m: map<Weight, real>)
    requires Lists(a, m) && Lists(b, m)
    ensures multiset(a) == multiset(b)
  {
    OncePerName(a);
    OncePerName(b);
    forall s: Score ensures multiset(a)[s] == multiset(b)[s] {
      assert s in a <==> s.name in m && m[s.name] == s.value;
      assert s in b <==> s.name in m && m[s.name] == s.value;
      assert s in multiset(a) <==> s in a;
      assert s in multiset(b) <==> s in b;
    }
  }

  lemma {:induction false} OncePerName(a: seq<Score>)
    requires DistinctNames(a)
    ensures forall s :: multiset(a)[s] <= 1
  {
    if a != [] {
      OncePerName(a[1..]);
      assert a == [a[0]] + a[1..];
      assert a[0] !in a[1..];
      assert a[0] !in multiset(a[1..]);
    }
  }

  // The total does not depend on the order in which the scores are gone through.
  lemma TotalDetermined(i: Inputs, before: map<Weight, real>, a: seq<Score>, b: seq<Score>)
    requires !Fails(i) && IsResult(i, before, a) && IsResult(i, before, b)
    ensures a[|a| - 1] == b[|b| - 1]
  {
    ListsPermuted(a[..|a| - 1], b[..|b| - 1], Wanted(i, before));
    SumPermuted(a[..|a| - 1], b[..|b| - 1], ValueOf);
  }

  // The old total has no influence: results from scores that differ in it alone end in the
  // same total.
  lemma OldTotalIgnored(i: Inputs, before: map<Weight, real>, t: real, a: seq<Score>, b: seq<Score>)
    requires !Fails(i) && IsResult(i, before, a) && IsResult(i, before[Total := t], b)
    ensures a[|a| - 1] == b[|b| - 1]
  {
    assert Wanted(i, before[Total := t]) == Wanted(i, before);
    TotalDetermined(i, before, a, b);
  }

  predicate IsOther(name: Weight) { name != Freshness && name != Downloads && name != Quality && name != Total }

  lemma WantedOthers(i: Inputs, before: map<Weight, real>)
    requires !Fails(i)
    ensures Total !in Wanted(i, before)
    ensures forall name | IsOther(name) ::
              (name in Wanted(i, before) <==> name in before) && (name in before ==> Wanted(i, before)[name] == before[name])
  {}

  // Scores with other names, such as the operator's weight, are in the result exactly as
  // they were before, and every name is in it once.
  lemma OthersKept(i: Inputs, before: map<Weight, real>, result: seq<Score>)
    requires !Fails(i) && IsResult(i, before, result)
    ensures DistinctNames(result)
    ensures forall s: Score | IsOther(s.name) :: s in result <==> s.name in before && before[s.name] == s.value
  {
    var parts, n := result[..|result| - 1], |result| - 1;
    WantedOthers(i, before);
    hide Wanted, Sum;
    assert result == parts + [result[n]];
    assert forall k | 0 <= k < n :: result[k] == parts[k] && parts[k] in parts;
    forall s: Score | IsOther(s.name) ensures s in result <==> s.name in before && before[s.name] == s.value {
      if s.name in before && before[s.name] == s.value {
        assert Score(s.name, Wanted(i, before)[s.name]) in parts;
      }
    }
  }

  // The database row set after a result has been written.
  ghost predicate Stored(result: seq<Score>, after: map<Weight, real>) { Lists(result, after) }

  // The inputs of a later calculation with nothing changed: the quality that was scored
  // is no longer due, unless it was never stored.
  predicate Unchanged(i: Inputs, j: Inputs) { j == i || j == i.(qualityDue := false) }

  lemma WantedAgain(i: Inputs, j: Inputs, before: map<Weight, real>, first: seq<Score>, after: map<Weight, real>)
    requires !Fails(i) && Unchanged(i, j) && IsResult(i, before, first) && Stored(first, after)
    ensures Wanted(j, after) == Wanted(i, before)
  {
    var w, parts, n := Wanted(i, before), first[..|first| - 1], |first| - 1;
    forall name ensures name in w ==> name in after && after[name] == w[name] {
      if name in w {
        assert Score(name, w[name]) in parts;
        assert Score(name, w[name]) in first;
      }
    }
    forall name ensures name in after && name != Total ==> name in w {
      if name in after && name != Total {
        var k :| 0 <= k < |first| && first[k] == Score(name, after[name]);
        assert parts[k] in parts;
      }
    }
    hide Lists, IsResult;
    SameWanted(i, j, before, after);
  }

  lemma SameWanted(i: Inputs, j: Inputs, before: map<Weight, real>, after: map<Weight, real>)
    requires !Fails(i) && Unchanged(i, j)
    requires forall name | name in Wanted(i, before) :: name in after && after[name] == Wanted(i, before)[name]
    requires forall name | name in after && name != Total :: name in Wanted(i, before)
    ensures Wanted(j, after) == Wanted(i, before)
  {
    assert Freshness in Wanted(i, before) && Downloads in Wanted(i, before) && Quality in Wanted(i, before);
  }

  // Recomputing with unchanged inputs from what was stored gives the same total, whether
  // or not the quality is scored again.
  lemma Recomputed(i: Inputs, j: Inputs, before: map<Weight, real>, first: seq<Score>, after: map<Weight, real>, second: seq<Score>)
    requires !Fails(i) && (j == i || j == i.(qualityDue := false))
    requires IsResult(i, before, first) && Stored(first, after) && IsResult(j, after, second)
    ensures second[|second| - 1] == first[|first| - 1]
  {
    WantedAgain(i, j, before, first, after);
    SameResult(i, j, before, after, second);
    TotalDetermined(i, before, first, second);
  }

  lemma SameResult(i: Inputs, j: Inputs, before: map<Weight, real>, after: map<Weight, real>, second: seq<Score>)
    requires !Fails(i) && !Fails(j) && Wanted(j, after) == Wanted(i, before) && IsResult(j, after, second)
    ensures IsResult(i, before, second)
  {
    hide Wanted, Lists;
  }

  // A repository's stored total is the sum of its other scores.
  ghost predicate TotalRight(m: map<Weight, real>) {
    Total in m && exists parts :: Lists(parts, m - {Total}) && m[Total] == Sum(parts, ValueOf)
  }

  lemma ResultIsRight(i: Inputs, before: map<Weight, real>, result: seq<Score>, after: map<Weight, real>)
    requires !Fails(i) && IsResult(i, before, result) && Stored(result, after)
    ensures TotalRight(after)
  {
    var parts, n := result[..|result| - 1], |result| - 1;
    assert result[n].name == Total;
    assert result[n] in result;
    forall s | s in parts ensures s.name in after - {Total} && after[s.name] == s.value {
      var k :| 0 <= k < n && parts[k] == s;
      assert result[k] in result && result[k].name != result[n].name;
    }
    forall name | name in after - {Total} ensures Score(name, after[name]) in parts {
      var k :| 0 <= k <= n && result[k] == Score(name, after[name]);
      assert k != n;
      assert parts[k] in parts;
    }
    assert Lists(parts, after - {Total});
  }

  // ---------------------------------------------------------------- writing a result

  // The scores of a map, one after another.
  ghost function Listing(m: map<Weight, real>): (parts: seq<Score>)
    ensures Lists(parts, m)
    decreases m.Keys
  {
    if m == map[] then []
    else
      var name :| name in m;
      ListsAppend(Listing(m - {name}), m - {name}, name, m[name]);
      assert (m - {name})[name := m[name]] == m;
      Listing(m - {name}) + [Score(name, m[name])]
  }

  // What a repository's scores are after its calculation was written: the wanted ones and
  // their sum. None when the calculation fails.
  ghost function Calculated(i: Inputs, before: map<Weight, real>): Option<map<Weight, real>> {
    if Fails(i) then None else Some(Wanted(i, before)[Total := Sum(Listing(Wanted(i, before)), ValueOf)])
  }

  // UpsertScore on one repository: each score replaces the row of its name or adds one.
  function Merged(before: map<Weight, real>, result: seq<Score>): map<Weight, real> {
    if result == [] then before
    else Merged(before, result[..|result| - 1])[result[|result| - 1].name := result[|result| - 1].value]
  }

  lemma ListsInit(parts: seq<Score>, m: map<Weight, real>)
    requires parts != [] && Lists(parts, m)
    ensures var last := parts[|parts| - 1];
            Lists(parts[..|parts| - 1], m - {last.name}) && last.name in m && m[last.name] == last.value
  {
    var init, last := parts[..|parts| - 1], parts[|parts| - 1];
    assert last in parts;
    forall s | s in init ensures s.name in m - {last.name} && m[s.name] == s.value {
      var k :| 0 <= k < |init| && init[k] == s;
      assert parts[k] in parts && parts[k].name != last.name;
    }
    forall name | name in m - {last.name} ensures Score(name, m[name]) in init {
      var k :| 0 <= k < |parts| && parts[k] == Score(name, m[name]);
      assert init[k] == parts[k];
    }
  }

  lemma {:induction false} MergedLists(before: map<Weight, real>, parts: seq<Score>, m: map<Weight, real>)
    requires Lists(parts, m)
    ensures Merged(before, parts) == before + m
  {
    hide Lists;
    if parts == [] {
      ListsNothing(m);
    } else {
      var last := parts[|parts| - 1];
      ListsInit(parts, m);
      MergedLists(before, parts[..|parts| - 1], m - {last.name});
      assert (before + (m - {last.name}))[last.name := last.value] == before + m;
    }
  }

  lemma ListsNothing(m: map<Weight, real>)
    requires Lists([], m)
    ensures m == map[]
  {
    forall name ensures name !in m {}
  }

  // Whatever order the map was walked in, writing a result leaves what Calculated says.
  lemma WritingGives(i: Inputs, before: map<Weight, real>, result: seq<Score>)
    requires !Fails(i) && IsResult(i, before, result)
    ensures Calculated(i, before) == Some(Merged(before, result)) && Stored(result, Merged(before, result))
  {
    var w, parts := Wanted(i, before), result[..|result| - 1];
    WantedCovers(i, before, Sum(parts, ValueOf));
    assert result == parts + [Score(Total, Sum(parts, ValueOf))];
    hide Wanted, Sum, Lists, Merged, Listing;
    ListsPermuted(parts, Listing(w), w);
    SumPermuted(parts, Listing(w), ValueOf);
    MergedLists(before, parts, w);
    MergedLast(before, parts, Score(Total, Sum(parts, ValueOf)));
    ListsAppend(parts, w, Total, Sum(parts, ValueOf));
  }

  lemma WantedCovers(i: Inputs, before: map<Weight, real>, total: real)
    requires !Fails(i)
    ensures Total !in Wanted(i, before)
    ensures (before + Wanted(i, before))[Total := total] == Wanted(i, before)[Total := total]
  {}

  lemma MergedLast(before: map<Weight, real>, parts: seq<Score>, s: Score)
    ensures Merged(before, parts + [s]) == Merged(before, parts)[s.name := s.value]
  {
    assert (parts + [s])[..|parts|] == parts;
  }

  // So what is stored after a calculation has the right total.
  lemma CalculatedRight(i: Inputs, before: map<Weight, real>)
    requires !Fails(i)
    ensures TotalRight(Calculated(i, before).value)
  {
    var m, w := Calculated(i, before).value, Wanted(i, before);
    assert m - {Total} == w;
    assert Lists(Listing(w), m - {Total});
  }

  // ---------------------------------------------------------------- the operator's weight

  function NoTotal(items: seq<Score>): seq<Score> {
    if items == [] then []
    else NoTotal(items[..|items| - 1]) + if items[|items| - 1].name == Total then [] else [items[|items| - 1]]
  }

  // Every item with the operator's weight set and the total reset.
  function Adjusted(items: seq<Score>, weight: real): (r: seq<Score>)
    ensures |r| == |items|
    ensures forall k | 0 <= k < |items| :: r[k].name == items[k].name
  {
    seq(|items|, k requires 0 <= k < |items| =>
      if items[k].name == Op then Score(Op, weight) else if items[k].name == Total then Score(Total, 0.0) else items[k])
  }

  lemma {:induction false} SumWithoutTotal(items: seq<Score>)
    requires forall k | 0 <= k < |items| && items[k].name == Total :: items[k].value == 0.0
    ensures Sum(items, ValueOf) == Sum(NoTotal(items), ValueOf)
  {
    if items != [] {
      var init, last := items[..|items| - 1], items[|items| - 1];
      SumWithoutTotal(init);
      assert items == init + [last];
      SumConcat(init, [last], ValueOf);
      SumOne(last, ValueOf);
      if last.name != Total {
        SumConcat(NoTotal(init), [last], ValueOf);
      } else {
        assert NoTotal(init) + [] == NoTotal(init);
      }
    }
  }

  lemma {:induction false} NoTotalConcat(a: seq<Score>, b: seq<Score>)
    ensures NoTotal(a + b) == NoTotal(a) + NoTotal(b)
  {
    if b == [] {
      assert a + b == a;
    } else {
      assert (a + b)[..|a + b| - 1] == a + b[..|b| - 1];
      NoTotalConcat(a, b[..|b| - 1]);
    }
  }

  lemma NoTotalOne(s: Score)
    ensures NoTotal([s]) == if s.name == Total then [] else [s]
  {
    assert [s][..|[s]| - 1] == [] && NoTotal([]) == [];
  }

  lemma NoTotalUpdate(items: seq<Score>, k: nat, v: real)
    requires k < |items| && items[k].name == Total
    ensures NoTotal(items[k := Score(Total, v)]) == NoTotal(items)
  {
    assert items == items[..k] + ([items[k]] + items[k + 1..]);
    assert items[k := Score(Total, v)] == items[..k] + ([Score(Total, v)] + items[k + 1..]);
    NoTotalConcat(items[..k], [items[k]] + items[k + 1..]);
    NoTotalConcat(items[..k], [Score(Total, v)] + items[k + 1..]);
    NoTotalConcat([items[k]], items[k + 1..]);
    NoTotalConcat([Score(Total, v)], items[k + 1..]);
    NoTotalOne(items[k]);
    NoTotalOne(Score(Total, v));
  }

  predicate Has(items: seq<Score>, name: Weight) { exists k :: 0 <= k < |items| && items[k].name == name }

  lemma HasAppend(items: seq<Score>, s: Score)
    ensures forall name :: Has(items + [s], name) <==> Has(items, name) || s.name == name
  {
    forall name ensures Has(items + [s], name) <==> Has(items, name) || s.name == name {
      if Has(items, name) {
        var k :| 0 <= k < |items| && items[k].name == name;
        assert (items + [s])[k].name == name;
      }
      if s.name == name {
        assert (items + [s])[|items|].name == name;
      }
    }
  }

  function WithOp(items: seq<Score>, weight: real): seq<Score> {
    Adjusted(items, weight) + if Has(items, Op) then [] else [Score(Op, weight)]
  }

  // The loop of UpsetOpWeights: what is added up and what is found.
  method Scan(items: seq<Score>, weight: real) returns (adjusted: seq<Score>, total: real, opSeen: bool, totalAt: nat)
    ensures adjusted == Adjusted(items, weight) && total == Sum(adjusted, ValueOf)
    ensures opSeen <==> Has(items, Op)
    ensures totalAt <= |items| && (totalAt < |items| ==> items[totalAt].name == Total)
    ensures totalAt == |items| ==> !Has(items, Total)
  {
    adjusted := Adjusted(items, weight);
    total, opSeen, totalAt := 0.0, false, |items|;
    for k := 0 to |items|
      invariant total == Sum(adjusted[..k], ValueOf)
      invariant opSeen <==> Has(items[..k], Op)
      invariant totalAt <= |items| && (totalAt < |items| ==> items[totalAt].name == Total)
      invariant totalAt == |items| ==> !Has(items[..k], Total)
    {
      assert items[..k + 1] == items[..k] + [items[k]];
      HasAppend(items[..k], items[k]);
      SumNext(adjusted, k, ValueOf);
      hide Has, Sum, Adjusted;
      if items[k].name == Op {
        opSeen := true;
      } else if items[k].name == Total {
        totalAt := k;
      }
      total := total + adjusted[k].value;
    }
    assert adjusted[..|items|] == adjusted && items[..|items|] == items;
  }

  ghost predicate TotalIsSum(items: seq<Score>) {
    exists k :: 0 <= k < |items| && items[k] == Score(Total, Sum(NoTotal(items), ValueOf))
  }

  lemma WithOpFacts(items: seq<Score>, weight: real)
    requires DistinctNames(items)
    ensures DistinctNames(WithOp(items, weight))
    ensures forall k | 0 <= k < |WithOp(items, weight)| && WithOp(items, weight)[k].name == Total :: WithOp(items, weight)[k].value == 0.0
    ensures Has(WithOp(items, weight), Total) <==> Has(items, Total)
  {
    var r := WithOp(items, weight);
    assert forall k | 0 <= k < |items| :: r[k].name == items[k].name;
    if Has(items, Total) {
      var k :| 0 <= k < |items| && items[k].name == Total;
      assert r[k].name == Total;
    }
  }

  // A total put into its row, or appended when there is none.
  lemma TotalWritten(items: seq<Score>, at: nat, total: real)
    requires DistinctNames(items) && total == Sum(NoTotal(items), ValueOf)
    requires at < |items| ==> items[at].name == Total
    requires at >= |items| ==> !Has(items, Total)
    ensures var r := if at < |items| then items[at := Score(Total, total)] else items + [Score(Total, total)];
            NoTotal(r) == NoTotal(items) && TotalIsSum(r) && DistinctNames(r)
  {
    var r := if at < |items| then items[at := Score(Total, total)] else items + [Score(Total, total)];
    if at < |items| {
      NoTotalUpdate(items, at, total);
      assert r[at] == Score(Total, total);
    } else {
      NoTotalConcat(items, [Score(Total, total)]);
      NoTotalOne(Score(Total, total));
      assert NoTotal(items) + [] == NoTotal(items);
      assert r[|items|] == Score(Total, total);
    }
  }

  // UpsetOpWeights (builder/store/database/recom.go), the other writer of the total: it
  // sets the operator's weight and leaves a total that is again the sum of the others.
  method UpsetOpWeights(items: seq<Score>, weight: real) returns (r: seq<Score>)
    requires DistinctNames(items)
    ensures NoTotal(r) == NoTotal(WithOp(items, weight))
    ensures TotalIsSum(r) && DistinctNames(r)
  {
    var adjusted, total, opSeen, totalAt := Scan(items, weight);
    r := adjusted;
    if !opSeen {
      SumConcat(r, [Score(Op, weight)], ValueOf);
      SumOne(Score(Op, weight), ValueOf);
      r := r + [Score(Op, weight)];
      total := total + weight;
    } else {
      assert r + [] == r;
    }
    assert r == WithOp(items, weight);
    WithOpFacts(items, weight);
    hide Has, Sum, NoTotal, TotalIsSum;
    SumWithoutTotal(r);
    TotalWritten(r, if totalAt < |items| then totalAt else |r|, total);
    if totalAt == |items| {
      r := r + [Score(Total, total)];
    } else {
      r := r[totalAt := Score(Total, total)];
    }
  }

  lemma {:induction false} NoTotalMembers(items: seq<Score>)
    ensures forall s: Score :: s in NoTotal(items) <==> s in items && s.name != Total
  {
    if items != [] {
      NoTotalMembers(items[..|items| - 1]);
      assert items == items[..|items| - 1] + [items[|items| - 1]];
    }
  }

  // Afterwards the operator's weight is the one given, once, and every score but it and
  // the total is as it was.
  lemma OpWeightSet(items: seq<Score>, weight: real, r: seq<Score>)
    requires DistinctNames(items) && DistinctNames(r) && NoTotal(r) == NoTotal(WithOp(items, weight))
    ensures forall s: Score | s.name != Total :: s in r <==> s == Score(Op, weight) || (s.name != Op && s in items)
  {
    NoTotalMembers(r);
    NoTotalMembers(WithOp(items, weight));
    WithOpMembers(items, weight);
    hide NoTotal, WithOp;
    forall s: Score | s.name != Total ensures s in r <==> s in WithOp(items, weight) {
      assert s in r <==> s in NoTotal(r);
    }
  }

  lemma WithOpMembers(items: seq<Score>, weight: real)
    ensures forall s: Score | s.name != Total :: s in WithOp(items, weight) <==> s == Score(Op, weight) || (s.name != Op && s in items)
  {
    var adjusted, all := Adjusted(items, weight), WithOp(items, weight);
    forall s: Score | s.name != Total ensures s in all <==> s == Score(Op, weight) || (s.name != Op && s in items) {
      if s.name != Op && s in items {
        var k :| 0 <= k < |items| && items[k] == s;
        assert adjusted[k] == s && all[k] == s;
      }
      if s == Score(Op, weight) {
        if Has(items, Op) {
          var k :| 0 <= k < |items| && items[k].name == Op;
          assert adjusted[k] == s && all[k] == s;
        } else {
          assert all[|adjusted|] == s;
        }
      }
    }
  }

  // The computed scores of a result: what the scripts gave, 0 for a weight that is not
  // configured, and the quality scored now or the one there was.
  lemma ComputedAre(i: Inputs, before: map<Weight, real>, result: seq<Score>)
    requires !(i.qualityDue && i.quality.None?) && IsResult(i, before, result)
    ensures Score(Freshness, if i.freshness.Some? then i.freshness.value else 0.0) in result
    ensures Score(Downloads, if i.downloads.Some? then i.downloads.value else 0.0) in result
    ensures Score(Quality, if i.qualityDue then i.quality.value else if Quality in before then before[Quality] else 0.0) in result
  {
    var w, parts := Wanted(i, before), result[..|result| - 1];
    assert Freshness in w && Downloads in w && Quality in w;
    assert Score(Freshness, w[Freshness]) in parts && Score(Downloads, w[Downloads]) in parts && Score(Quality, w[Quality]) in parts;
    hide Lists;
    assert forall s | s in parts :: s in result;
  }

  // With no other scores the total is the sum of the three that are computed.
  lemma TotalOfThree(i: Inputs, result: seq<Score>)
    requires !(i.qualityDue && i.quality.None?) && IsResult(i, map[], result)
    ensures result[|result| - 1].value
         == (if i.freshness.Some? then i.freshness.value else 0.0)
          + (if i.downloads.Some? then i.downloads.value else 0.0)
          + (if i.qualityDue then i.quality.value else 0.0)
  {
    var w, parts := Wanted(i, map[]), result[..|result| - 1];
    ThreeListed(i, map[]);
    assert w == Computed(i, map[]);
    var three := ThreeOf(w);
    ListsPermuted(parts, three, w);
    SumPermuted(parts, three, ValueOf);
    SumOfThree(three[0], three[1], three[2]);
  }

  lemma SumOfThree(a: Score, b: Score, c: Score)
    ensures Sum([a, b, c], ValueOf) == a.value + b.value + c.value
  {
    assert [a, b, c] == [a] + ([b] + [c]);
    SumConcat([a], [b] + [c], ValueOf);
    SumConcat([b], [c], ValueOf);
    SumOne(a, ValueOf);
    SumOne(b, ValueOf);
    SumOne(c, ValueOf);
  }
}
