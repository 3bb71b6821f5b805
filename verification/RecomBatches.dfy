// Recomputing the recommendation scores of all repositories (CalculateRecomScore in
// component/recom.go): keyset batches, each calculated and then written in one statement.
// Which reads and writes fail is an input.
module RecomBatches {
  import opened Wrappers
  import opened RecomScores
  import opened Keyset
  import opened Division

  const DEFAULT_BATCH := 500

  function Batch(size: int): (b: nat)
    ensures b > 0 && (size <= 0 ==> b == 500) && (size > 0 ==> b == size)
  {
    if size <= 0 then DEFAULT_BATCH else size
  }

  type Scores = map<Weight, real>

  type Table = map<int, Scores>

  function Of(table: Table, id: int): Scores { if id in table then table[id] else map[] }

  // What a repository's scores become: the calculation may fail, and so may the write of
  // the batch it is in.
  ghost function After(i: Inputs, scores: Scores, written: bool): Scores {
    if !written || Fails(i) then scores else Calculated(i, scores).value
  }

  // The first n repositories have been gone through, in batches; the others are as before.
  ghost predicate Progress(before: Table, table: Table, ids: seq<int>, n: nat, batch: nat, inputs: int -> Inputs, flushOk: nat -> bool)
    requires n <= |ids| && batch > 0
  {
    && (forall p | 0 <= p < n :: Of(table, ids[p]) == After(inputs(ids[p]), Of(before, ids[p]), flushOk(p / batch)))
    && (forall id | id !in ids[..n] :: Of(table, id) == Of(before, id))
  }

  // One batch written, or not.
  ghost predicate Upserted(before: Table, table: Table, repos: seq<int>, inputs: int -> Inputs, written: bool) {
    forall id :: Of(table, id) == if id in repos then After(inputs(id), Of(before, id), written) else Of(before, id)
  }

  lemma BatchProgress(before: Table, t: Table, t': Table, ids: seq<int>, k: nat, batch: nat, repos: seq<int>,
                      inputs: int -> Inputs, flushOk: nat -> bool)
    requires Ascending(ids, Id) && batch > 0 && k * batch + |repos| <= |ids| && |repos| <= batch
    requires repos == ids[k * batch..k * batch + |repos|]
    requires Progress(before, t, ids, k * batch, batch, inputs, flushOk) && Upserted(t, t', repos, inputs, flushOk(k))
    ensures Progress(before, t', ids, k * batch + |repos|, batch, inputs, flushOk)
  {
    var n := k * batch;
    var m := n + |repos|;
    BatchFacts(ids, repos, k, n, batch);
    hide After, Of, Ascending;
    forall p | 0 <= p < m
      ensures Of(t', ids[p]) == After(inputs(ids[p]), Of(before, ids[p]), flushOk(p / batch))
    {
      assert p >= n ==> ids[p] !in ids[..n];
    }
    forall id | id !in ids[..m] ensures Of(t', id) == Of(before, id) {
      assert ids[..m] == ids[..n] + repos;
    }
  }

  // ---------------------------------------------------------------- totals

  ghost predicate AllRight(table: Table) {
    forall id :: Of(table, id) == map[] || TotalRight(Of(table, id))
  }

  lemma AfterRight(i: Inputs, m: Scores, written: bool)
    ensures After(i, m, written) == m || TotalRight(After(i, m, written))
    ensures written && !Fails(i) ==> TotalRight(After(i, m, written))
  {
    if written && !Fails(i) {
      CalculatedRight(i, m);
    }
    hide *;
  }

  // Whatever calculations and writes fail, and however far a run came, it leaves every
  // total right if it found them so, and right for every repository that was calculated
  // and written.
  lemma RunKeepsTotals(before: Table, table: Table, ids: seq<int>, n: nat, batch: nat, inputs: int -> Inputs, flushOk: nat -> bool)
    requires n <= |ids| && batch > 0 && Progress(before, table, ids, n, batch, inputs, flushOk)
    ensures AllRight(before) ==> AllRight(table)
    ensures forall p | 0 <= p < n && flushOk(p / batch) && !Fails(inputs(ids[p])) :: TotalRight(Of(table, ids[p]))
  {
    hide TotalRight, Of, After;
    forall p | 0 <= p < n {
      AfterRight(inputs(ids[p]), Of(before, ids[p]), flushOk(p / batch));
    }
    if AllRight(before) {
      forall id ensures Of(table, id) == map[] || TotalRight(Of(table, id)) {
        if id in ids[..n] {
          var p :| 0 <= p < n && ids[..n][p] == id;
          assert Of(table, ids[p]) == After(inputs(ids[p]), Of(before, ids[p]), flushOk(p / batch));
        }
      }
    }
  }

  // ---------------------------------------------------------------- the run

  // The results of the repositories of one batch whose calculation succeeded.
  ghost predicate Pending(table: Table, repos: seq<int>, inputs: int -> Inputs, newScores: map<int, seq<Score>>) {
    && (forall id :: id in newScores <==> id in repos && !Fails(inputs(id)))
    && (forall id | id in newScores :: IsOutcome(inputs(id), Of(table, id), newScores[id]))
  }

  ghost predicate IsOutcome(i: Inputs, before: Scores, result: seq<Score>) { !Fails(i) && IsResult(i, before, result) }

  class ScoreStore {
    var table: Table

    // FindByRepoIDs for one repository, as records by name.
    method Load(id: int) returns (records: map<Weight, Record>)
      ensures ByName(records) && Values(records) == Of(table, id)
      ensures forall n | n in records :: fresh(records[n])
    {
      var scores := Of(table, id);
      records := map[];
      var rest := scores.Keys;
      while rest != {}
        invariant rest <= scores.Keys && records.Keys == scores.Keys - rest
        invariant forall n | n in records :: fresh(records[n]) && records[n].name == n && records[n].score == scores[n]
        decreases rest
      {
        var name :| name in rest;
        var r := new Record(name, scores[name]);
        records := records[name := r];
        rest := rest - {name};
      }
    }

    // The calculations of one batch; a failing one is skipped.
    method CalcBatch(repos: seq<int>, inputs: int -> Inputs) returns (newScores: map<int, seq<Score>>)
      ensures Pending(table, repos, inputs, newScores)
    {
      newScores := map[];
      for k := 0 to |repos|
        invariant Pending(table, repos[..k], inputs, newScores)
      {
        assert repos[..k + 1] == repos[..k] + [repos[k]];
        hide IsOutcome;
        var ok, scores := CalcOne(repos[k], inputs(repos[k]));
        if ok {
          newScores := newScores[repos[k] := scores];
        }
      }
      assert repos[..|repos|] == repos;
    }

    method CalcOne(id: int, i: Inputs) returns (ok: bool, scores: seq<Score>)
      ensures ok <==> !Fails(i)
      ensures ok ==> IsOutcome(i, Of(table, id), scores)
    {
      var records := Load(id);
      var newRecords;
      ok, newRecords := CalcTotalScore(i, records);
      scores := View(newRecords);
    }

    // UpsertScore for one batch.
    method UpsertScore(newScores: map<int, seq<Score>>)
      modifies this
      ensures forall id :: Of(table, id) == if id in newScores then Merged(Of(old(table), id), newScores[id]) else Of(old(table), id)
    {
      table := map id | id in table.Keys + newScores.Keys ::
        if id in newScores then Merged(Of(table, id), newScores[id]) else table[id];
    }

    method CalcAndWrite(repos: seq<int>, inputs: int -> Inputs, flushOk: bool)
      modifies this
      ensures Upserted(old(table), table, repos, inputs, flushOk)
    {
      var newScores := CalcBatch(repos, inputs);
      hide *;
      if flushOk {
        UpsertScore(newScores);
        WrittenIs(old(table), table, repos, inputs, newScores);
      } else {
        NotWritten(table, repos, inputs);
      }
    }

    // CalculateRecomScore: every repository is looked at once, in order of id, whatever
    // fails for others; batch k is written when flushOk(k). Only a failed read ends it.
    method CalculateRecomScore(ids: seq<int>, batchSize: int, inputs: int -> Inputs,
                               weightsOk: bool, readOk: nat -> bool, flushOk: nat -> bool)
      returns (ok: bool, ghost batches: nat)
      requires Ascending(ids, Id) && forall i | 0 <= i < |ids| :: ids[i] > 0
      modifies this
      ensures Progress(old(table), table, ids, Covered(batches, Batch(batchSize), |ids|), Batch(batchSize), inputs, flushOk)
      ensures forall k: nat | k < batches :: readOk(k)
      ensures ok ==> weightsOk && batches == |ids| / Batch(batchSize) + 1
      ensures !ok ==> if weightsOk then batches <= |ids| / Batch(batchSize) && !readOk(batches) else batches == 0
    {
      hide *;
      var batch := Batch(batchSize);
      batches := 0;
      Start(table, ids, batch, inputs, flushOk);
      CoveredFacts(table, table, ids, 0, 0, batch, inputs, flushOk);
      if !weightsOk {
        return false, 0;
      }
      var lastRepoID, k := 0, 0;
      while true
        invariant BatchesDone(old(table), table, ids, k, lastRepoID, batch, inputs, flushOk)
        invariant forall j: nat | j < k :: readOk(j)
        decreases |Above(ids, Id, lastRepoID)|
      {
        CoveredFacts(old(table), table, ids, k, lastRepoID, batch, inputs, flushOk);
        if !readOk(k) {
          return false, k;
        }
        BatchIsPage(ids, lastRepoID, batch);
        var repos := BatchGet(ids, Id, lastRepoID, batch);
        ghost var t := table;
        CalcAndWrite(repos, inputs, flushOk(k));
        BatchStep(old(table), t, table, ids, k, lastRepoID, batch, inputs, flushOk);
        if |repos| < batch {
          return true, k + 1;
        }
        lastRepoID := repos[|repos| - 1];
        k := k + 1;
      }
    }
  }

  // How many of n repositories the first batches hold.
  function Covered(batches: nat, batch: nat, n: nat): (c: nat)
    ensures c <= n
  {
    if batches * batch <= n then batches * batch else n
  }

  // k batches are done, and the cursor stands behind them.
  ghost predicate BatchesDone(before: Table, table: Table, ids: seq<int>, k: nat, last: int, batch: nat,
                              inputs: int -> Inputs, flushOk: nat -> bool)
  {
    && batch > 0 && 0 <= k * batch <= |ids|
    && Above(ids, Id, last) == ids[k * batch..]
    && Progress(before, table, ids, k * batch, batch, inputs, flushOk)
  }

  lemma CoveredFacts(before: Table, table: Table, ids: seq<int>, k: nat, last: int, batch: nat, inputs: int -> Inputs, flushOk: nat -> bool)
    requires BatchesDone(before, table, ids, k, last, batch, inputs, flushOk)
    ensures batch > 0 && k <= |ids| / batch
    ensures Progress(before, table, ids, Covered(k, batch, |ids|), batch, inputs, flushOk)
  {
    hide Progress;
    PagesBefore(|ids|, batch, k);
  }

  lemma Start(table: Table, ids: seq<int>, batch: nat, inputs: int -> Inputs, flushOk: nat -> bool)
    requires batch > 0 && forall i | 0 <= i < |ids| :: ids[i] > 0
    ensures BatchesDone(table, table, ids, 0, 0, batch, inputs, flushOk)
  {
    AllAbove(ids, Id, 0);
    assert ids[0..] == ids && 0 * batch == 0;
  }

  lemma BatchIsPage(ids: seq<int>, last: int, batch: nat)
    requires forall i | 0 <= i < |ids| :: ids[i] > 0
    ensures BatchGet(ids, Id, last, batch) == Page(ids, Id, last, batch)
  {
    BatchGetIsPage(ids, Id, last, batch);
  }

  lemma BatchStep(before: Table, t: Table, t': Table, ids: seq<int>, k: nat, last: int, batch: nat,
                  inputs: int -> Inputs, flushOk: nat -> bool)
    requires Ascending(ids, Id) && BatchesDone(before, t, ids, k, last, batch, inputs, flushOk)
    requires Upserted(t, t', Page(ids, Id, last, batch), inputs, flushOk(k))
    ensures var repos := Page(ids, Id, last, batch);
            && batch > 0
            && (|repos| < batch ==>
                  && Progress(before, t', ids, Covered(k + 1, batch, |ids|), batch, inputs, flushOk)
                  && k == |ids| / batch)
            && (|repos| >= batch ==>
                  && BatchesDone(before, t', ids, k + 1, repos[|repos| - 1], batch, inputs, flushOk)
                  && |Above(ids, Id, repos[|repos| - 1])| < |Above(ids, Id, last)|)
  {
    hide Progress, Upserted, Above, Page, Ascending;
    var repos, n := Page(ids, Id, last, batch), k * batch;
    PageIsSlice(ids, n, last, batch);
    BatchProgress(before, t, t', ids, k, batch, repos, inputs, flushOk);
    NextMultiple(k, batch);
    if |repos| < batch {
      QuotientIs(|ids|, batch, k);
    }
  }

  lemma NotWritten(t: Table, repos: seq<int>, inputs: int -> Inputs)
    ensures Upserted(t, t, repos, inputs, false)
  {}

  // The batch statement leaves for every repository what its calculation says.
  lemma WrittenIs(t: Table, t': Table, repos: seq<int>, inputs: int -> Inputs, newScores: map<int, seq<Score>>)
    requires Pending(t, repos, inputs, newScores)
    requires forall id :: Of(t', id) == if id in newScores then Merged(Of(t, id), newScores[id]) else Of(t, id)
    ensures Upserted(t, t', repos, inputs, true)
  {
    hide Of, Merged, IsOutcome;
    forall id ensures Of(t', id) == if id in repos then After(inputs(id), Of(t, id), true) else Of(t, id) {
      if id in newScores {
        OutcomeWritten(inputs(id), Of(t, id), newScores[id]);
      }
    }
  }

  lemma OutcomeWritten(i: Inputs, before: Scores, result: seq<Score>)
    requires IsOutcome(i, before, result)
    ensures After(i, before, true) == Merged(before, result)
  {
    WritingGives(i, before, result);
  }

  lemma PageIsSlice(ids: seq<int>, n: nat, last: int, batch: nat)
    requires Ascending(ids, Id) && batch > 0 && n <= |ids| && Above(ids, Id, last) == ids[n..]
    ensures var repos := Page(ids, Id, last, batch);
            && n + |repos| <= |ids| && repos == ids[n..n + |repos|] && |repos| <= batch && Ascending(repos, Id)
            && (|repos| < batch ==> n + |repos| == |ids|)
            && (repos != [] ==> Above(ids, Id, repos[|repos| - 1]) == ids[n + |repos|..])
  {
    PageThenRest(ids, Id, last, batch);
    var repos := Page(ids, Id, last, batch);
    forall a, b | 0 <= a < b < |repos| ensures Id(repos[a]) < Id(repos[b]) {
      assert repos[a] == ids[n + a] && repos[b] == ids[n + b];
      assert Id(ids[n + a]) < Id(ids[n + b]);
    }
    if repos != [] {
      AboveNext(ids, Id, last, |repos| - 1);
    }
  }

  // The rows of batch k follow those of the batches before it.
  lemma BatchFacts(ids: seq<int>, repos: seq<int>, k: nat, n: nat, batch: nat)
    requires Ascending(ids, Id) && batch > 0 && n == k * batch && n + |repos| <= |ids| && |repos| <= batch
    requires repos == ids[n..n + |repos|]
    ensures forall p | 0 <= p < n :: ids[p] !in repos
    ensures forall p | n <= p < n + |repos| :: ids[p] in repos && p / batch == k
    ensures forall p | n <= p < n + |repos| :: ids[p] !in ids[..n]
  {
    forall p | n <= p < n + |repos| ensures ids[p] in repos && p / batch == k {
      assert repos[p - n] == ids[p];
      QuotientIs(p, batch, k);
    }
    forall i, j | 0 <= i < n <= j < |ids| ensures ids[i] != ids[j] {
      assert Id(ids[i]) < Id(ids[j]);
    }
  }
}
