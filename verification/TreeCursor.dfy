// The file-tree pages served from the database (TreeV2 and RemoteTree, component/repo.go)
// and the client that walks them (getAllFiles, component/mirror.go). The cursor is the
// decimal text of an offset in base64.
module TreeCursor {
  import opened Wrappers
  import opened Text
  import opened Base64
  import opened Division

  const DEFAULT_TREE_LIMIT := 500
  const MAX_TREE_LIMIT := 10000

  // A row as the answer shows it. The database branch leaves the type empty, so that
  // there no row is a directory; the git server fills it in.
  datatype File = File(path: string, isDir: bool)

  datatype Page = Page(files: seq<File>, cursor: string)

  function EncodeCursor(offset: nat): (c: string) { Encode(Itoa(offset)) }

  // cast.ToInt on the canonical decimal text of a natural number; other texts count as 0.
  function ToInt(s: string): nat {
    if s != "" && (forall i | 0 <= i < |s| :: IsDigit(s[i])) && (s[0] == '0' ==> s == "0") then Value(s) else 0
  }

  function DecodeCursor(cursor: string): nat {
    if cursor == "" then 0
    else
      match Decode(cursor)
      case None => 0
      case Some(text) => ToInt(text)
  }

  // How a server writes and reads its cursors. "" stands for no cursor.
  datatype Codec = Codec(encode: nat -> string, decode: string -> nat) {
    ghost predicate Valid() {
      && decode("") == 0
      && forall offset: nat :: encode(offset) != "" && decode(encode(offset)) == offset
    }
  }

  const CURSORS := Codec(EncodeCursor, DecodeCursor)

  // Decoding an encoded offset gives the offset, and no encoded offset looks like the end.
  lemma CursorRoundTrip(offset: nat)
    ensures EncodeCursor(offset) != "" && DecodeCursor(EncodeCursor(offset)) == offset
  {
    var t := Itoa(offset);
    DecodeEncode(t);
    ValueItoa(offset);
    if t[0] == '0' { assert Itoa(0) == "0"; }
  }

  // The cursors in use round-trip: what is proved below for valid codecs holds of them.
  lemma CursorsValid()
    ensures CURSORS.Valid()
  {
    forall offset: nat { CursorRoundTrip(offset); }
  }

  function Slice(rows: seq<File>, offset: nat, limit: nat): seq<File> {
    if offset >= |rows| then []
    else if offset + limit >= |rows| then rows[offset..]
    else rows[offset..offset + limit]
  }

  function Clamp(limit: nat): (l: nat)
    ensures l > 0
  {
    if limit == 0 then DEFAULT_TREE_LIMIT else if limit > MAX_TREE_LIMIT then MAX_TREE_LIMIT else limit
  }

  // The page query and the cursor to the next page: none after a short page.
  function PageOf(codec: Codec, files: seq<File>, offset: nat, limit: nat): Page {
    Page(files, if |files| == limit then codec.encode(offset + limit) else "")
  }

  function TreeV2(codec: Codec, rows: seq<File>, limit: nat, cursor: string): Page {
    var offset, l := codec.decode(cursor), Clamp(limit);
    PageOf(codec, Slice(rows, offset, l), offset, l)
  }

  // RemoteTree does not clamp. What the database answers to a limit of 0 is zero.
  function RemoteTree(codec: Codec, rows: seq<File>, limit: nat, cursor: string, zero: seq<File>): Page {
    var offset := codec.decode(cursor);
    PageOf(codec, if limit == 0 then zero else Slice(rows, offset, limit), offset, limit)
  }

  function NonDirs(files: seq<File>): seq<File> {
    if files == [] then []
    else (if files[0].isDir then [] else [files[0]]) + NonDirs(files[1..])
  }

  lemma {:induction false} NonDirsConcat(a: seq<File>, b: seq<File>)
    ensures NonDirs(a + b) == NonDirs(a) + NonDirs(b)
  {
    if a == [] {
      assert a + b == b;
    } else {
      assert (a + b)[1..] == a[1..] + b;
      NonDirsConcat(a[1..], b);
    }
  }

  lemma SliceNext(rows: seq<File>, offset: nat, limit: nat)
    requires limit > 0
    ensures Slice(rows, 0, offset) + Slice(rows, offset, limit) == Slice(rows, 0, offset + limit)
  {}

  // A cursor that is not base64 gets the first page, as no cursor does.
  lemma UnreadableStartsOver(rows: seq<File>, limit: nat, cursor: string)
    requires Decode(cursor) == None
    ensures TreeV2(CURSORS, rows, limit, cursor) == TreeV2(CURSORS, rows, limit, "")
  {
    CursorsValid();
    hide Slice, Clamp, Decode;
  }

  // ---------------------------------------------------------------- the client

  // What happens to one call: an answer, no answer at all, or an answer with an error.
  datatype Fault = Fine | NoAnswer | Failed

  method AppendNonDirs(files: seq<File>, page: seq<File>) returns (r: seq<File>)
    ensures r == files + NonDirs(page)
  {
    r := files;
    for i := 0 to |page|
      invariant r == files + NonDirs(page[..i])
    {
      NonDirsConcat(page[..i], [page[i]]);
      assert page[..i + 1] == page[..i] + [page[i]];
      if page[i].isDir {
        continue;
      }
      r := r + [page[i]];
    }
    assert page[..|page|] == page;
  }

  // The entries kept are the listed ones that are no directories, each as often as listed.
  lemma {:induction false} NonDirsAre(files: seq<File>)
    ensures forall f: File :: multiset(NonDirs(files))[f] == if f.isDir then 0 else multiset(files)[f]
    ensures forall f :: f in NonDirs(files) <==> f in files && !f.isDir
  {
    if files != [] {
      NonDirsAre(files[1..]);
      assert files == [files[0]] + files[1..];
      assert NonDirs(files) == (if files[0].isDir then [] else [files[0]]) + NonDirs(files[1..]);
    }
  }

  // And they are in listing order: a listing without directories is kept as it is, and
  // directories go without moving what stands around them.
  lemma {:induction false} NonDirsKeep(files: seq<File>)
    requires forall f | f in files :: !f.isDir
    ensures NonDirs(files) == files
  {
    if files != [] {
      NonDirsKeep(files[1..]);
    }
  }

  lemma NonDirsBetween(a: seq<File>, d: seq<File>, b: seq<File>)
    requires forall f | f in d :: f.isDir
    ensures NonDirs(a + d + b) == NonDirs(a) + NonDirs(b)
  {
    NonDirsConcat(a + d, b);
    NonDirsConcat(a, d);
    NonDirsNone(d);
    assert NonDirs(a) + [] == NonDirs(a);
  }

  lemma {:induction false} NonDirsNone(files: seq<File>)
    requires forall f | f in files :: f.isDir
    ensures NonDirs(files) == []
  {
    if files != [] {
      NonDirsNone(files[1..]);
    }
  }

  // The default and the largest page of the server.
  lemma Limits(limit: nat)
    ensures 1 <= Clamp(limit) <= 10000
    ensures limit == 0 ==> Clamp(limit) == 500
    ensures 1 <= limit <= 10000 ==> Clamp(limit) == limit
    ensures limit > 10000 ==> Clamp(limit) == 10000
  {}

  // Every entry of the listing that is no directory, as often as it is listed, and nothing
  // else.
  ghost predicate IsListing(files: seq<File>, rows: seq<File>) {
    && (forall f: File :: f in files ==> !f.isDir && f in rows)
    && (forall f: File :: !f.isDir ==> multiset(files)[f] == multiset(rows)[f])
  }

  // What a walk that read all pages returns.
  lemma WalkedListing(rows: seq<File>)
    ensures IsListing(NonDirs(rows), rows)
  {
    NonDirsAre(rows);
  }

  // The rows a number of full pages cover.
  function Covered(calls: nat, limit: nat): nat { calls * Clamp(limit) }

  // The full pages of a listing.
  function FullPages(n: nat, limit: nat): nat { n / Clamp(limit) }

  // getAllFiles against TreeV2: the files of the pages answered, in order. Without
  // faults that is every file that is not a directory, once, after one call more than
  // there are full pages; a missing answer ends the walk with no error.
  method GetAllFiles(codec: Codec, rows: seq<File>, limit: nat, fault: nat -> Fault)
    returns (files: seq<File>, ok: bool, calls: nat)
    requires codec.Valid()
    ensures forall k: nat | k < calls :: fault(k) == Fine
    ensures files == NonDirs(Slice(rows, 0, Covered(calls, limit)))
    ensures calls <= FullPages(|rows|, limit) + 1
    ensures calls == FullPages(|rows|, limit) + 1 ==> ok && files == NonDirs(rows)
    ensures calls <= FullPages(|rows|, limit) ==> fault(calls) != Fine && (ok <==> fault(calls) == NoAnswer)
  {
    files, calls := [], 0;
    var cursor := "";
    WalkStarts(codec, rows, limit);
    hide *;
    while true
      invariant Walked(codec, rows, limit, calls, cursor, files)
      invariant forall k: nat | k < calls :: fault(k) == Fine
      decreases |rows| - codec.decode(cursor)
    {
      WalkOn(codec, rows, limit, calls, cursor, files);
      if fault(calls) != Fine {
        return files, fault(calls) == NoAnswer, calls;
      }
      var resp := TreeV2(codec, rows, limit, cursor);
      cursor := resp.cursor;
      files := AppendNonDirs(files, resp.files);
      calls := calls + 1;
      if cursor == "" {
        return files, true, calls;
      }
    }
  }

  // After a number of answered calls, all with a cursor to go on.
  ghost predicate Walked(codec: Codec, rows: seq<File>, limit: nat, calls: nat, cursor: string, files: seq<File>) {
    && Covered(calls, limit) == codec.decode(cursor) <= |rows|
    && files == NonDirs(Slice(rows, 0, Covered(calls, limit)))
  }

  lemma WalkStarts(codec: Codec, rows: seq<File>, limit: nat)
    requires codec.Valid()
    ensures codec.Valid() && Walked(codec, rows, limit, 0, "", [])
  {}

  // One more answer: it leaves a cursor further on, or it was the last and all is read.
  lemma WalkOn(codec: Codec, rows: seq<File>, limit: nat, calls: nat, cursor: string, files: seq<File>)
    requires codec.Valid() && Walked(codec, rows, limit, calls, cursor, files)
    ensures calls <= FullPages(|rows|, limit) && files == NonDirs(Slice(rows, 0, Covered(calls, limit)))
    ensures var resp := TreeV2(codec, rows, limit, cursor);
            var more := files + NonDirs(resp.files);
            if resp.cursor == "" then
              && calls == FullPages(|rows|, limit)
              && more == NonDirs(rows) == NonDirs(Slice(rows, 0, Covered(calls + 1, limit)))
            else
              && Walked(codec, rows, limit, calls + 1, resp.cursor, more)
              && codec.decode(cursor) < codec.decode(resp.cursor) <= |rows|
  {
    var l, offset := Clamp(limit), codec.decode(cursor);
    hide NonDirs, Clamp;
    PagesBefore(|rows|, l, calls);
    SliceNext(rows, offset, l);
    NonDirsConcat(Slice(rows, 0, offset), Slice(rows, offset, l));
    NextMultiple(calls, l);
    if TreeV2(codec, rows, limit, cursor).cursor == "" {
      QuotientIs(|rows|, l, calls);
      assert Slice(rows, 0, offset + l) == rows;
    }
  }

  // ---------------------------------------------------------------- RemoteTree walks

  // The cursor a client sends with its n-th call.
  function CursorAt(codec: Codec, rows: seq<File>, limit: nat, zero: seq<File>, n: nat): string {
    if n == 0 then ""
    else RemoteTree(codec, rows, limit, CursorAt(codec, rows, limit, zero, n - 1), zero).cursor
  }

  // The n-th call is answered with the end of the listing.
  predicate EndsAt(codec: Codec, rows: seq<File>, limit: nat, zero: seq<File>, n: nat) {
    CursorAt(codec, rows, limit, zero, n + 1) == ""
  }

  lemma {:induction false} CursorAtOffset(codec: Codec, rows: seq<File>, limit: nat, zero: seq<File>, n: nat)
    requires codec.Valid() && limit > 0 && n * limit <= |rows|
    ensures codec.decode(CursorAt(codec, rows, limit, zero, n)) == n * limit
  {
    if n > 0 {
      NextMultiple(n - 1, limit);
      CursorAtOffset(codec, rows, limit, zero, n - 1);
    }
  }

  lemma {:induction false} StaysAtStart(codec: Codec, rows: seq<File>, n: nat)
    requires codec.Valid()
    ensures codec.decode(CursorAt(codec, rows, 0, [], n)) == 0
  {
    if n > 0 {
      StaysAtStart(codec, rows, n - 1);
    }
  }

  // A walk over RemoteTree ends exactly when its limit is positive or the database
  // answers a limit of 0 with some row; otherwise the same empty page comes for ever.
  lemma RemoteWalkEndsIff(codec: Codec, rows: seq<File>, limit: nat, zero: seq<File>)
    requires codec.Valid()
    ensures (exists n: nat :: EndsAt(codec, rows, limit, zero, n)) <==> limit > 0 || zero != []
  {
    if limit > 0 {
      var n := |rows| / limit;
      assert n * limit + |rows| % limit == |rows|;
      CursorAtOffset(codec, rows, limit, zero, n);
      assert EndsAt(codec, rows, limit, zero, n);
    } else if zero != [] {
      assert CursorAt(codec, rows, limit, zero, 0) == "";
      assert EndsAt(codec, rows, limit, zero, 0);
    } else {
      forall n: nat ensures !EndsAt(codec, rows, limit, zero, n) {
        StaysAtStart(codec, rows, n);
      }
    }
  }

  // A cursor as it is sent: the base64 of the offset's decimal text.
  lemma KnownCursor()
    ensures EncodeCursor(500) == "NTAw" && DecodeCursor("NTAw") == 500
  {
    hide *;
    CursorRoundTrip(500);
    CursorIs(500);
    KnownTexts();
    KnownQuad();
  }

  lemma CursorIs(offset: nat)
    ensures IsBytes(Itoa(offset)) && EncodeCursor(offset) == Encode(Itoa(offset))
  {
    hide Itoa, Encode;
  }

  lemma KnownQuad()
    ensures IsBytes("500") && Encode("500") == "NTAw"
  {
    assert "500"[3..] == "";
    assert Sextets('5' as int, '0' as int, '0' as int) == "NTAw";
  }
}
