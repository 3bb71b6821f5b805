// Recording the files of a repository (createRepoFileRecords in component/repo_file.go):
// the tree is read page by page and every file that has no record yet gets one. The git
// server's answers and the faults of the store are inputs.
module RepoFiles {

  datatype Kind = Dir | Other(name: string)

  datatype File = File(path: string, kind: Kind, size: int, sha: string)

  datatype Repo = Repo(id: int, branch: string)

  datatype Row = Row(repoID: int, path: string, kind: Kind, size: int, sha: string, branch: string)

  // What Exists compares (builder/store/database/repository_file.go).
  datatype Key = Key(path: string, repoID: int, branch: string, sha: string)

  // An answer to page k: the page, no response at all, or a response with an error.
  datatype Reply = Page | NoResponse | Failed

  // What happens for file i of page k.
  datatype Fault = NoFault | ExistsFails | CreateFails

  datatype Outcome = Outcome(rows: seq<Row>, ok: bool)

  function KeyOf(r: Row): Key { Key(r.path, r.repoID, r.branch, r.sha) }

  function RowFor(repo: Repo, f: File): Row { Row(repo.id, f.path, f.kind, f.size, f.sha, repo.branch) }

  predicate Exists(rows: seq<Row>, key: Key) { exists i :: 0 <= i < |rows| && KeyOf(rows[i]) == key }

  // ---------------------------------------------------------------- what is done

  function NonDirs(files: seq<File>): seq<File> {
    if files == [] then []
    else NonDirs(files[..|files| - 1]) + if files[|files| - 1].kind == Dir then [] else [files[|files| - 1]]
  }

  function Step(rows: seq<Row>, row: Row, fault: Fault): Outcome {
    if fault == ExistsFails || Exists(rows, KeyOf(row)) then Outcome(rows, true)
    else if fault == CreateFails then Outcome(rows, false)
    else Outcome(rows + [row], true)
  }

  function PageFrom(rows: seq<Row>, repo: Repo, files: seq<File>, i: nat, faults: nat -> Fault): Outcome
    requires i <= |files|
    decreases |files| - i
  {
    if i == |files| then Outcome(rows, true)
    else
      var s := Step(rows, RowFor(repo, files[i]), faults(i));
      if s.ok then PageFrom(s.rows, repo, files, i + 1, faults) else s
  }

  function From(rows: seq<Row>, repo: Repo, pages: seq<seq<File>>, k: nat, reply: nat -> Reply, faults: nat -> nat -> Fault): Outcome
    requires k <= |pages|
    decreases |pages| - k
  {
    if k == |pages| || reply(k) == NoResponse then Outcome(rows, true)
    else if reply(k) == Failed then Outcome(rows, false)
    else
      var p := PageFrom(rows, repo, NonDirs(pages[k]), 0, faults(k));
      if p.ok then From(p.rows, repo, pages, k + 1, reply, faults) else p
  }

  class Store {
    var rows: seq<Row>

    method CreatePage(repo: Repo, files: seq<File>, faults: nat -> Fault) returns (ok: bool)
      modifies this
      ensures Outcome(rows, ok) == PageFrom(old(rows), repo, files, 0, faults)
    {
      for i := 0 to |files|
        invariant PageFrom(old(rows), repo, files, 0, faults) == PageFrom(rows, repo, files, i, faults)
      {
        var rf := RowFor(repo, files[i]);
        if faults(i) == ExistsFails {
          continue;
        }
        if Exists(rows, KeyOf(rf)) {
          continue;
        }
        if faults(i) == CreateFails {
          return false;
        }
        rows := rows + [rf];
      }
      ok := true;
    }

    // The cursor is the number of the page to read; the last page has none.
    method CreateRepoFileRecords(repo: Repo, pages: seq<seq<File>>, reply: nat -> Reply, faults: nat -> nat -> Fault)
      returns (ok: bool)
      requires pages != []
      modifies this
      ensures Outcome(rows, ok) == From(old(rows), repo, pages, 0, reply, faults)
    {
      var cursor := 0;
      while true
        invariant cursor < |pages|
        invariant From(old(rows), repo, pages, 0, reply, faults) == From(rows, repo, pages, cursor, reply, faults)
        decreases |pages| - cursor
      {
        if reply(cursor) == NoResponse {
          return true;
        }
        if reply(cursor) == Failed {
          return false;
        }
        var files := [];
        for i := 0 to |pages[cursor]|
          invariant files == NonDirs(pages[cursor][..i])
        {
          assert pages[cursor][..i + 1][..i] == pages[cursor][..i];
          if pages[cursor][i].kind != Dir {
            files := files + [pages[cursor][i]];
          }
        }
        assert pages[cursor][..|pages[cursor]|] == pages[cursor];
        ok := CreatePage(repo, files, faults(cursor));
        if !ok {
          return;
        }
        cursor := cursor + 1;
        if cursor == |pages| {
          return;
        }
      }
    }
  }

  // ---------------------------------------------------------------- properties

  predicate DistinctKeys(rows: seq<Row>) { forall i, j | 0 <= i < j < |rows| :: KeyOf(rows[i]) != KeyOf(rows[j]) }

  function Keys(rows: seq<Row>): set<Key> { set r | r in rows :: KeyOf(r) }

  // What any run does, whatever fails: the rows there stay as they are and in their place,
  // no key is recorded twice, and every new row is a file of the listing.
  ghost predicate Grows(rows: seq<Row>, rows': seq<Row>, repo: Repo, listed: set<File>) {
    && rows <= rows'
    && (DistinctKeys(rows) ==> DistinctKeys(rows'))
    && forall i | |rows| <= i < |rows'| :: IsListed(rows'[i], repo, listed)
  }

  ghost predicate IsListed(r: Row, repo: Repo, listed: set<File>) {
    exists f :: f in listed && f.kind != Dir && r == RowFor(repo, f)
  }

  lemma GrowsStep(rows: seq<Row>, repo: Repo, f: File, fault: Fault, listed: set<File>)
    requires f in listed && f.kind != Dir
    ensures Grows(rows, Step(rows, RowFor(repo, f), fault).rows, repo, listed)
  {}

  lemma GrowsTrans(a: seq<Row>, b: seq<Row>, c: seq<Row>, repo: Repo, listed: set<File>)
    requires Grows(a, b, repo, listed) && Grows(b, c, repo, listed)
    ensures Grows(a, c, repo, listed)
  {
    forall i | |a| <= i < |c| ensures IsListed(c[i], repo, listed) {
      assert i < |b| ==> c[i] == b[i];
    }
  }

  lemma {:induction false} PageGrows(rows: seq<Row>, repo: Repo, files: seq<File>, i: nat, faults: nat -> Fault, listed: set<File>)
    requires i <= |files| && forall f | f in files :: f in listed && f.kind != Dir
    ensures Grows(rows, PageFrom(rows, repo, files, i, faults).rows, repo, listed)
    decreases |files| - i
  {
    if i < |files| {
      var s := Step(rows, RowFor(repo, files[i]), faults(i));
      GrowsStep(rows, repo, files[i], faults(i), listed);
      if s.ok {
        PageGrows(s.rows, repo, files, i + 1, faults, listed);
        GrowsTrans(rows, s.rows, PageFrom(s.rows, repo, files, i + 1, faults).rows, repo, listed);
      }
    }
  }

  lemma {:induction false} NonDirsMembers(files: seq<File>)
    ensures forall f :: f in NonDirs(files) <==> f in files && f.kind != Dir
  {
    if files != [] {
      NonDirsMembers(files[..|files| - 1]);
      assert files == files[..|files| - 1] + [files[|files| - 1]];
    }
  }

  function FilesOf(page: seq<File>): set<File> { set f | f in page }

  // The files of the pages from k on.
  function Listed(pages: seq<seq<File>>, k: nat): set<File>
    requires k <= |pages|
    decreases |pages| - k
  {
    if k == |pages| then {} else FilesOf(pages[k]) + Listed(pages, k + 1)
  }

  lemma GrowsMore(a: seq<Row>, b: seq<Row>, repo: Repo, few: set<File>, many: set<File>)
    requires Grows(a, b, repo, few) && few <= many
    ensures Grows(a, b, repo, many)
  {
    forall i | |a| <= i < |b| ensures IsListed(b[i], repo, many) {
      assert IsListed(b[i], repo, few);
    }
  }

  lemma {:induction false} RunGrows(rows: seq<Row>, repo: Repo, pages: seq<seq<File>>, k: nat, reply: nat -> Reply, faults: nat -> nat -> Fault)
    requires k <= |pages|
    ensures Grows(rows, From(rows, repo, pages, k, reply, faults).rows, repo, Listed(pages, k))
    decreases |pages| - k
  {
    if k < |pages| && reply(k) == Page {
      var listed := Listed(pages, k);
      NonDirsMembers(pages[k]);
      PageGrows(rows, repo, NonDirs(pages[k]), 0, faults(k), listed);
      var p := PageFrom(rows, repo, NonDirs(pages[k]), 0, faults(k));
      if p.ok {
        var r := From(p.rows, repo, pages, k + 1, reply, faults);
        RunGrows(p.rows, repo, pages, k + 1, reply, faults);
        GrowsMore(p.rows, r.rows, repo, Listed(pages, k + 1), listed);
        GrowsTrans(rows, p.rows, r.rows, repo, listed);
      }
    }
  }

  lemma KeysExist(rows: seq<Row>, key: Key)
    ensures Exists(rows, key) <==> key in Keys(rows)
  {
    if Exists(rows, key) {
      var i :| 0 <= i < |rows| && KeyOf(rows[i]) == key;
      assert rows[i] in rows;
    }
  }

  // The keys whose existence check was answered.
  function CheckedPage(repo: Repo, files: seq<File>, i: nat, faults: nat -> Fault): set<Key>
    requires i <= |files|
    decreases |files| - i
  {
    if i == |files| then {}
    else (if faults(i) == ExistsFails then {} else {KeyOf(RowFor(repo, files[i]))}) + CheckedPage(repo, files, i + 1, faults)
  }

  function Checked(repo: Repo, pages: seq<seq<File>>, k: nat, reply: nat -> Reply, faults: nat -> nat -> Fault): set<Key>
    requires k <= |pages|
    decreases |pages| - k
  {
    if k == |pages| || reply(k) != Page then {}
    else CheckedPage(repo, NonDirs(pages[k]), 0, faults(k)) + Checked(repo, pages, k + 1, reply, faults)
  }

  lemma {:induction false} PageKeys(rows: seq<Row>, repo: Repo, files: seq<File>, i: nat, faults: nat -> Fault)
    requires i <= |files| && PageFrom(rows, repo, files, i, faults).ok
    ensures Keys(PageFrom(rows, repo, files, i, faults).rows) == Keys(rows) + CheckedPage(repo, files, i, faults)
    decreases |files| - i
  {
    if i < |files| {
      var row := RowFor(repo, files[i]);
      var s := Step(rows, row, faults(i));
      KeysExist(rows, KeyOf(row));
      assert Keys(rows + [row]) == Keys(rows) + {KeyOf(row)};
      PageKeys(s.rows, repo, files, i + 1, faults);
    }
  }

  // A run that reports success leaves recorded what was recorded before and what it could
  // check, no more and no less: a failed check or a missing response drops files silently.
  lemma {:induction false} RecordedKeys(rows: seq<Row>, repo: Repo, pages: seq<seq<File>>, k: nat, reply: nat -> Reply, faults: nat -> nat -> Fault)
    requires k <= |pages| && From(rows, repo, pages, k, reply, faults).ok
    ensures Keys(From(rows, repo, pages, k, reply, faults).rows) == Keys(rows) + Checked(repo, pages, k, reply, faults)
    decreases |pages| - k
  {
    if k < |pages| && reply(k) == Page {
      var p := PageFrom(rows, repo, NonDirs(pages[k]), 0, faults(k));
      PageKeys(rows, repo, NonDirs(pages[k]), 0, faults(k));
      hide Keys, CheckedPage, PageFrom;
      RecordedKeys(p.rows, repo, pages, k + 1, reply, faults);
    }
  }

  function FileKeys(repo: Repo, files: set<File>): set<Key> {
    set f | f in files && f.kind != Dir :: KeyOf(RowFor(repo, f))
  }

  lemma {:induction false} CheckedPageAll(repo: Repo, files: seq<File>, i: nat, faults: nat -> Fault)
    requires i <= |files|
    ensures CheckedPage(repo, files, i, faults) <= set f | f in files[i..] :: KeyOf(RowFor(repo, f))
    ensures (forall j :: faults(j) != ExistsFails) ==>
              CheckedPage(repo, files, i, faults) == set f | f in files[i..] :: KeyOf(RowFor(repo, f))
    decreases |files| - i
  {
    if i < |files| {
      CheckedPageAll(repo, files, i + 1, faults);
      assert files[i..] == [files[i]] + files[i + 1..];
    }
  }

  lemma FileKeysUnion(repo: Repo, a: set<File>, b: set<File>)
    ensures FileKeys(repo, a + b) == FileKeys(repo, a) + FileKeys(repo, b)
  {}

  lemma FileKeysOf(repo: Repo, page: seq<File>)
    ensures FileKeys(repo, FilesOf(page)) == set f | f in NonDirs(page)[0..] :: KeyOf(RowFor(repo, f))
  {
    NonDirsMembers(page);
    assert NonDirs(page)[0..] == NonDirs(page);
  }

  predicate Answered(pages: seq<seq<File>>, reply: nat -> Reply) { forall j | 0 <= j < |pages| :: reply(j) == Page }

  ghost predicate NoStoreFaults(faults: nat -> nat -> Fault) { forall j, i :: faults(j)(i) == NoFault }

  lemma {:induction false} AllChecked(repo: Repo, pages: seq<seq<File>>, k: nat, reply: nat -> Reply, faults: nat -> nat -> Fault)
    requires k <= |pages|
    ensures Checked(repo, pages, k, reply, faults) <= FileKeys(repo, Listed(pages, k))
    ensures Answered(pages, reply) && NoStoreFaults(faults) ==>
              Checked(repo, pages, k, reply, faults) == FileKeys(repo, Listed(pages, k))
    decreases |pages| - k
  {
    if k < |pages| {
      AllChecked(repo, pages, k + 1, reply, faults);
      CheckedPageAll(repo, NonDirs(pages[k]), 0, faults(k));
      FileKeysOf(repo, pages[k]);
      hide FileKeys, CheckedPage, NonDirs;
      FileKeysUnion(repo, FilesOf(pages[k]), Listed(pages, k + 1));
    }
  }

  lemma {:induction false} PageSucceeds(rows: seq<Row>, repo: Repo, files: seq<File>, i: nat, faults: nat -> Fault)
    requires i <= |files| && forall j :: faults(j) != CreateFails
    ensures PageFrom(rows, repo, files, i, faults).ok
    decreases |files| - i
  {
    if i < |files| {
      PageSucceeds(Step(rows, RowFor(repo, files[i]), faults(i)).rows, repo, files, i + 1, faults);
    }
  }

  lemma {:induction false} RunSucceeds(rows: seq<Row>, repo: Repo, pages: seq<seq<File>>, k: nat, reply: nat -> Reply, faults: nat -> nat -> Fault)
    requires k <= |pages| && Answered(pages, reply) && NoStoreFaults(faults)
    ensures From(rows, repo, pages, k, reply, faults).ok
    decreases |pages| - k
  {
    if k < |pages| {
      PageSucceeds(rows, repo, NonDirs(pages[k]), 0, faults(k));
      RunSucceeds(PageFrom(rows, repo, NonDirs(pages[k]), 0, faults(k)).rows, repo, pages, k + 1, reply, faults);
    }
  }

  // A run without faults records every file of the listing, whatever an earlier,
  // interrupted run over the same listing left behind; both together record what one
  // run without faults would have.
  lemma InterruptedThenComplete(rows: seq<Row>, repo: Repo, pages: seq<seq<File>>, reply1: nat -> Reply, faults1: nat -> nat -> Fault,
                                reply: nat -> Reply, faults: nat -> nat -> Fault)
    requires Answered(pages, reply) && NoStoreFaults(faults)
    ensures var first := From(rows, repo, pages, 0, reply1, faults1);
            var second := From(first.rows, repo, pages, 0, reply, faults);
            && second.ok
            && Keys(second.rows) == Keys(rows) + FileKeys(repo, Listed(pages, 0))
            && (DistinctKeys(rows) ==> DistinctKeys(second.rows))
            && (DistinctKeys(rows) ==> |second.rows| == |From(rows, repo, pages, 0, reply, faults).rows|)
  {
    var first := From(rows, repo, pages, 0, reply1, faults1);
    var second := From(first.rows, repo, pages, 0, reply, faults);
    var once := From(rows, repo, pages, 0, reply, faults);
    RunSucceeds(first.rows, repo, pages, 0, reply, faults);
    RunSucceeds(rows, repo, pages, 0, reply, faults);
    RecordedKeys(first.rows, repo, pages, 0, reply, faults);
    RecordedKeys(rows, repo, pages, 0, reply, faults);
    AllChecked(repo, pages, 0, reply, faults);
    RunGrows(rows, repo, pages, 0, reply1, faults1);
    RunGrows(first.rows, repo, pages, 0, reply, faults);
    RunGrows(rows, repo, pages, 0, reply, faults);
    hide From, Listed, Checked;
    GrownKeys(rows, first.rows, repo, Listed(pages, 0));
    if DistinctKeys(rows) {
      DistinctSize(second.rows);
      DistinctSize(once.rows);
    }
  }

  lemma GrownKeys(rows: seq<Row>, rows': seq<Row>, repo: Repo, listed: set<File>)
    requires Grows(rows, rows', repo, listed)
    ensures Keys(rows) <= Keys(rows') <= Keys(rows) + FileKeys(repo, listed)
  {
    forall r | r in rows ensures r in rows' {
      var i :| 0 <= i < |rows| && rows[i] == r;
      assert rows'[i] == r;
    }
    forall key | key in Keys(rows') ensures key in Keys(rows) + FileKeys(repo, listed) {
      var r :| r in rows' && KeyOf(r) == key;
      var i :| 0 <= i < |rows'| && rows'[i] == r;
      if i < |rows| {
        assert rows[i] == r;
      } else {
        assert IsListed(rows'[i], repo, listed);
      }
    }
  }

  lemma {:induction false} DistinctSize(rows: seq<Row>)
    requires DistinctKeys(rows)
    ensures |Keys(rows)| == |rows|
  {
    if rows != [] {
      var init, last := rows[..|rows| - 1], rows[|rows| - 1];
      DistinctSize(init);
      assert rows == init + [last];
      NewKey(init, last);
    }
  }

  lemma NewKey(init: seq<Row>, last: Row)
    requires DistinctKeys(init + [last])
    ensures KeyOf(last) !in Keys(init) && Keys(init + [last]) == Keys(init) + {KeyOf(last)}
  {
    var rows := init + [last];
    forall r | r in init ensures KeyOf(r) != KeyOf(last) {
      var i :| 0 <= i < |init| && init[i] == r;
      assert KeyOf(rows[i]) != KeyOf(rows[|init|]);
    }
  }

  // When every file is recorded, another run changes nothing, whatever fails.
  lemma RerunChangesNothing(rows: seq<Row>, repo: Repo, pages: seq<seq<File>>, reply: nat -> Reply, faults: nat -> nat -> Fault)
    requires DistinctKeys(rows) && FileKeys(repo, Listed(pages, 0)) <= Keys(rows)
    ensures From(rows, repo, pages, 0, reply, faults).rows == rows
  {
    var after := From(rows, repo, pages, 0, reply, faults).rows;
    RunGrows(rows, repo, pages, 0, reply, faults);
    hide From, Listed;
    GrownKeys(rows, after, repo, Listed(pages, 0));
    DistinctSize(rows);
    DistinctSize(after);
    assert Keys(after) == Keys(rows);
  }

  // ---------------------------------------------------------------- what a row holds

  // Over any run, whatever fails: a new row carries the repository's id and branch, and the
  // path, type, size and commit of one listed file that is no directory.
  lemma NewRowsHold(rows: seq<Row>, repo: Repo, pages: seq<seq<File>>, reply: nat -> Reply, faults: nat -> nat -> Fault, i: nat)
    requires |rows| <= i < |From(rows, repo, pages, 0, reply, faults).rows|
    ensures var r := From(rows, repo, pages, 0, reply, faults).rows[i];
            && r.repoID == repo.id && r.branch == repo.branch
            && exists f :: f in Listed(pages, 0) && f.kind != Dir
                        && r.path == f.path && r.kind == f.kind && r.size == f.size && r.sha == f.sha
  {
    var after := From(rows, repo, pages, 0, reply, faults).rows;
    RunGrows(rows, repo, pages, 0, reply, faults);
    hide From, Listed;
    assert IsListed(after[i], repo, Listed(pages, 0));
    var f :| f in Listed(pages, 0) && f.kind != Dir && after[i] == RowFor(repo, f);
  }

  lemma ListedAre(pages: seq<seq<File>>, k: nat)
    requires k <= |pages|
    ensures forall f :: f in Listed(pages, k) <==> exists j :: k <= j < |pages| && f in pages[j]
    decreases |pages| - k
  {
    if k < |pages| {
      ListedAre(pages, k + 1);
    }
  }

  // After a run without faults every listed file that is no directory has a row with its
  // path and commit for this repository and branch, whatever rows there are of other
  // branches, repositories or commits.
  lemma EveryFileHasRow(rows: seq<Row>, repo: Repo, pages: seq<seq<File>>, reply: nat -> Reply, faults: nat -> nat -> Fault, j: nat, f: File)
    requires Answered(pages, reply) && NoStoreFaults(faults)
    requires j < |pages| && f in pages[j] && f.kind != Dir
    ensures exists r :: r in From(rows, repo, pages, 0, reply, faults).rows
                     && r.repoID == repo.id && r.branch == repo.branch && r.path == f.path && r.sha == f.sha
  {
    RunSucceeds(rows, repo, pages, 0, reply, faults);
    RecordedKeys(rows, repo, pages, 0, reply, faults);
    AllChecked(repo, pages, 0, reply, faults);
    ListedAre(pages, 0);
    var after := From(rows, repo, pages, 0, reply, faults).rows;
    hide From, Listed, Checked;
    assert KeyOf(RowFor(repo, f)) in FileKeys(repo, Listed(pages, 0));
    assert KeyOf(RowFor(repo, f)) in Keys(after);
    var r :| r in after && KeyOf(r) == KeyOf(RowFor(repo, f));
  }

  predicate AllPages(reply: nat -> Reply, k: nat, j: nat) { forall i: nat | k <= i < j :: reply(i) == Page }

  ghost predicate InsertsWork(faults: nat -> nat -> Fault) { forall j, i :: faults(j)(i) != CreateFails }

  // When no insert fails a call fails exactly when the server's first answer that is not a
  // page is an error. A missing answer ends it as a success, and a failed existence check
  // does not end it.
  lemma {:induction false} FailsIff(rows: seq<Row>, repo: Repo, pages: seq<seq<File>>, k: nat, reply: nat -> Reply, faults: nat -> nat -> Fault)
    requires k <= |pages| && InsertsWork(faults)
    ensures From(rows, repo, pages, k, reply, faults).ok
       <==> forall j: nat | k <= j < |pages| && AllPages(reply, k, j) :: reply(j) != Failed
    decreases |pages| - k
  {
    if k < |pages| && reply(k) == Page {
      var p := PageFrom(rows, repo, NonDirs(pages[k]), 0, faults(k));
      PageSucceeds(rows, repo, NonDirs(pages[k]), 0, faults(k));
      FailsIff(p.rows, repo, pages, k + 1, reply, faults);
      assert forall j: nat | k + 1 <= j < |pages| :: AllPages(reply, k, j) <==> AllPages(reply, k + 1, j);
    }
  }

  // A failing insert of a file that has no row fails the call.
  lemma InsertFails(rows: seq<Row>, repo: Repo, f: File, rest: seq<File>, pages: seq<seq<File>>, reply: nat -> Reply, faults: nat -> nat -> Fault)
    requires pages != [] && pages[0] == [f] + rest && f.kind != Dir && reply(0) == Page && faults(0)(0) == CreateFails
    requires forall r | r in rows :: !(r.repoID == repo.id && r.branch == repo.branch && r.path == f.path && r.sha == f.sha)
    ensures From(rows, repo, pages, 0, reply, faults) == Outcome(rows, false)
  {
    FirstKept(f, rest);
    var files := NonDirs(pages[0]);
    assert !Exists(rows, KeyOf(RowFor(repo, files[0]))) by {
      forall i | 0 <= i < |rows| ensures KeyOf(rows[i]) != KeyOf(RowFor(repo, f)) { assert rows[i] in rows; }
    }
  }

  lemma {:induction false} FirstKept(f: File, rest: seq<File>)
    requires f.kind != Dir
    ensures NonDirs([f] + rest) != [] && NonDirs([f] + rest)[0] == f
    decreases |rest|
  {
    var all := [f] + rest;
    if rest == [] {
      assert all[..0] == [];
    } else {
      assert all[..|all| - 1] == [f] + rest[..|rest| - 1];
      FirstKept(f, rest[..|rest| - 1]);
    }
  }
}
