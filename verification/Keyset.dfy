// Keyset pagination: rows in ascending order of a key, queried by "key above a cursor,
// first batch rows" (RepoStore.BatchGet, FindUnhashedRepos, MultiSyncStore.GetAfter).
module Keyset {

  // The key of a row that is an id.
  function Id(id: int): int { id }

  predicate Ascending<T>(rows: seq<T>, key: T -> int) {
    forall i, j | 0 <= i < j < |rows| :: key(rows[i]) < key(rows[j])
  }

  function Above<T>(rows: seq<T>, key: T -> int, last: int): seq<T> {
    if rows == [] then []
    else if key(rows[0]) > last then [rows[0]] + Above(rows[1..], key, last)
    else Above(rows[1..], key, last)
  }

  function Take<T>(s: seq<T>, n: nat): seq<T> { if |s| <= n then s else s[..n] }

  function Page<T>(rows: seq<T>, key: T -> int, last: int, batch: nat): seq<T> {
    Take(Above(rows, key, last), batch)
  }

  // RepoStore.BatchGet: a cursor that is not positive means no cursor at all.
  function BatchGet<T>(rows: seq<T>, key: T -> int, last: int, batch: nat): seq<T> {
    if last > 0 then Page(rows, key, last, batch) else Take(rows, batch)
  }

  lemma {:induction false} AboveMembers<T>(rows: seq<T>, key: T -> int, last: int)
    ensures forall x :: x in Above(rows, key, last) <==> x in rows && key(x) > last
  {
    if rows != [] {
      AboveMembers(rows[1..], key, last);
      assert rows == [rows[0]] + rows[1..];
    }
  }

  // Among ascending rows the rows above a cursor are a suffix.
  lemma {:induction false} AboveSuffix<T>(rows: seq<T>, key: T -> int, last: int)
    requires Ascending(rows, key)
    ensures |Above(rows, key, last)| <= |rows|
    ensures Above(rows, key, last) == rows[|rows| - |Above(rows, key, last)|..]
  {
    if rows != [] {
      AboveSuffix(rows[1..], key, last);
      if key(rows[0]) > last {
        AllAbove(rows[1..], key, last);
      }
    }
  }

  lemma {:induction false} AllAbove<T>(rows: seq<T>, key: T -> int, last: int)
    requires forall i | 0 <= i < |rows| :: key(rows[i]) > last
    ensures Above(rows, key, last) == rows
  {
    if rows != [] {
      AllAbove(rows[1..], key, last);
    }
  }

  lemma AboveAscending<T>(rows: seq<T>, key: T -> int, last: int)
    requires Ascending(rows, key)
    ensures Ascending(Above(rows, key, last), key)
  {
    AboveSuffix(rows, key, last);
  }

  lemma {:induction false} AboveConcat<T>(a: seq<T>, b: seq<T>, key: T -> int, last: int)
    ensures Above(a + b, key, last) == Above(a, key, last) + Above(b, key, last)
  {
    if a == [] {
      assert a + b == b;
    } else {
      assert (a + b)[1..] == a[1..] + b;
      AboveConcat(a[1..], b, key, last);
    }
  }

  lemma {:induction false} NoneAbove<T>(rows: seq<T>, key: T -> int, last: int)
    requires forall i | 0 <= i < |rows| :: key(rows[i]) <= last
    ensures Above(rows, key, last) == []
  {
    if rows != [] {
      NoneAbove(rows[1..], key, last);
    }
  }

  lemma AboveRow<T>(rows: seq<T>, key: T -> int, n: nat)
    requires Ascending(rows, key) && 0 < n <= |rows|
    ensures Above(rows, key, key(rows[n - 1])) == rows[n..]
  {
    hide Above;
    assert rows == rows[..n] + rows[n..];
    AboveConcat(rows[..n], rows[n..], key, key(rows[n - 1]));
    NoneAbove(rows[..n], key, key(rows[n - 1]));
    AllAbove(rows[n..], key, key(rows[n - 1]));
  }

  // Moving the cursor to the k-th row above it leaves exactly the rows behind that row.
  lemma AboveNext<T>(rows: seq<T>, key: T -> int, last: int, k: nat)
    requires Ascending(rows, key) && k < |Above(rows, key, last)|
    ensures Above(rows, key, key(Above(rows, key, last)[k])) == Above(rows, key, last)[k + 1..]
  {
    var rest := Above(rows, key, last);
    AboveSuffix(rows, key, last);
    hide Above, Ascending;
    var n := |rows| - |rest| + k + 1;
    assert rest[k] == rows[n - 1] && rest[k + 1..] == rows[n..];
    AboveRow(rows, key, n);
  }

  // A page followed by what lies above its last row is everything above the cursor.
  lemma PageThenRest<T>(rows: seq<T>, key: T -> int, last: int, batch: nat)
    requires Ascending(rows, key) && batch > 0
    ensures var page := Page(rows, key, last, batch);
            if page == [] then Above(rows, key, last) == []
            else Above(rows, key, last) == page + Above(rows, key, key(page[|page| - 1]))
    ensures |Page(rows, key, last, batch)| < batch ==> Page(rows, key, last, batch) == Above(rows, key, last)
  {
    var page := Page(rows, key, last, batch);
    if page != [] {
      AboveNext(rows, key, last, |page| - 1);
      assert Above(rows, key, last) == Above(rows, key, last)[..|page|] + Above(rows, key, last)[|page|..];
    }
  }

  // With positive keys, as a serial primary key has, the missing cursor makes no
  // difference.
  lemma BatchGetIsPage<T>(rows: seq<T>, key: T -> int, last: int, batch: nat)
    requires forall i | 0 <= i < |rows| :: key(rows[i]) > 0
    ensures BatchGet(rows, key, last, batch) == Page(rows, key, last, batch)
  {
    if last <= 0 {
      AllAbove(rows, key, last);
    }
  }
}
