// Planning a multipart LFS upload (calculatePartSize and the loop of
// buildMultipartUploadLink, component/git_http.go). Signing a link is a function of the
// part number.
module Multipart {
  import opened Text

  const MAX_PART_NUM := 1000
  const CHUNK_KEY := "chunk_size"

  // What the client uploads: chunk after chunk until nothing is left.
  function Cut(size: nat, chunk: nat): seq<nat>
    requires chunk > 0 || size == 0
  {
    if size == 0 then [] else if size <= chunk then [size] else [chunk] + Cut(size - chunk, chunk)
  }

  function Total(parts: seq<nat>): nat { if parts == [] then 0 else parts[0] + Total(parts[1..]) }

  // The parts add up to the file; all but the last have the chunk's length, and the last
  // is neither empty nor longer.
  lemma {:induction false} CutWhole(size: nat, chunk: nat)
    requires chunk > 0 || size == 0
    ensures Total(Cut(size, chunk)) == size
    ensures forall i | 0 <= i < |Cut(size, chunk)| - 1 :: Cut(size, chunk)[i] == chunk
    ensures Cut(size, chunk) != [] ==> 0 < Cut(size, chunk)[|Cut(size, chunk)| - 1] <= chunk
    ensures Cut(size, chunk) == [] <==> size == 0
  {
    if size > chunk {
      CutWhole(size - chunk, chunk);
      assert Cut(size, chunk)[1..] == Cut(size - chunk, chunk);
    }
  }

  // There are at most k parts exactly when k chunks hold the file.
  lemma {:induction false} CutCount(size: nat, chunk: nat, k: nat)
    requires chunk > 0
    ensures |Cut(size, chunk)| <= k <==> size <= k * chunk
  {
    if size == 0 {
    } else if k == 0 {
    } else if size <= chunk {
      assert k * chunk == (k - 1) * chunk + chunk;
    } else {
      CutCount(size - chunk, chunk, k - 1);
      assert k * chunk == (k - 1) * chunk + chunk;
    }
  }

  // calculatePartSize: the least chunk that is not below the configured minimum and with
  // which MAX_PART_NUM parts hold the file.
  method CalculatePartSize(fileSize: nat, minSize: int) returns (partSize: nat)
    ensures IsPartSize(fileSize, minSize, partSize)
    ensures fileSize > 0 ==> partSize > 0
  {
    partSize := fileSize / MAX_PART_NUM;
    if fileSize % MAX_PART_NUM != 0 {
      partSize := partSize + 1;
    }
    if partSize < minSize {
      partSize := minSize;
    }
  }

  ghost predicate IsPartSize(fileSize: nat, minSize: int, partSize: nat) {
    forall c: int :: c >= partSize <==> c >= minSize && fileSize <= 1000 * c
  }

  // The same in terms of parts: of the chunks that respect the minimum, those that need
  // no more than MAX_PART_NUM parts are the chosen one and the larger ones.
  lemma ChunkIsLeast(fileSize: nat, minSize: int, partSize: nat, c: nat)
    requires fileSize > 0 && c > 0 && IsPartSize(fileSize, minSize, partSize)
    ensures c >= partSize <==> c >= minSize && |Cut(fileSize, c)| <= 1000
  {
    CutCount(fileSize, c, MAX_PART_NUM);
  }

  // The header names the chunk size and one link per part, numbered from 1.
  ghost predicate IsHeader(header: map<string, string>, chunk: nat, n: nat, link: nat -> string) {
    Keyed(header, CHUNK_KEY, Itoa(chunk), n, Itoa, link)
  }

  // One entry of its own, one for each of 1..n, and no others.
  ghost predicate Keyed(header: map<string, string>, first: string, value: string, n: nat, text: nat -> string, link: nat -> string) {
    && first in header && header[first] == value
    && (forall k: nat | 1 <= k <= n :: text(k) in header && header[text(k)] == link(k))
    && (forall key | key in header :: key == first || exists k: nat :: 1 <= k <= n && key == text(k))
  }

  // The part loop of buildMultipartUploadLink: one link for each part the client will
  // cut, at most MAX_PART_NUM of them, unless signing one of them fails. The plan depends
  // on the size only, so a resumed upload gets the same one.
  method BuildMultipartUploadLink(size: nat, minSize: int, link: nat -> string, signOk: nat -> bool)
    returns (ok: bool, chunkSize: nat, header: map<string, string>)
    ensures IsPartSize(size, minSize, chunkSize) && (size > 0 ==> chunkSize > 0)
    ensures |Cut(size, chunkSize)| <= 1000
    ensures ok <==> forall k: nat | 1 <= k <= |Cut(size, chunkSize)| :: signOk(k)
    ensures if ok then IsHeader(header, chunkSize, |Cut(size, chunkSize)|, link) else header == map[]
  {
    hide *;
    chunkSize := CalculatePartSize(size, minSize);
    var partNumber := 1;
    header := map[CHUNK_KEY := Itoa(chunkSize)];
    var totalSize: int := size;
    StartHeader(chunkSize, link);
    CutStep(size, chunkSize);
    CutWithin(size, minSize, chunkSize);
    while totalSize > 0
      invariant 1 <= partNumber
      invariant totalSize > 0 || partNumber - 1 == |Cut(size, chunkSize)|
      invariant totalSize > 0 ==> partNumber - 1 + |Cut(totalSize, chunkSize)| == |Cut(size, chunkSize)|
      invariant IsHeader(header, chunkSize, partNumber - 1, link)
      invariant forall k: nat | 1 <= k < partNumber :: signOk(k)
      decreases totalSize
    {
      CutStep(totalSize, chunkSize);
      CutStep(if totalSize > chunkSize then totalSize - chunkSize else 0, chunkSize);
      if !signOk(partNumber) {
        return false, chunkSize, map[];
      }
      AddPart(header, chunkSize, partNumber, link);
      header := header[Itoa(partNumber) := link(partNumber)];
      partNumber := partNumber + 1;
      totalSize := totalSize - chunkSize;
    }
    ok := true;
  }

  // What the client finds in the header: the chunk size, and the link of every part under
  // the decimal text of its number.
  lemma HeaderHolds(header: map<string, string>, chunk: nat, n: nat, link: nat -> string)
    requires IsHeader(header, chunk, n, link)
    ensures "chunk_size" in header && header["chunk_size"] == Itoa(chunk)
    ensures forall k: nat | 1 <= k <= n :: Itoa(k) in header && header[Itoa(k)] == link(k)
    ensures forall key | key in header && key != "chunk_size" :: exists k: nat :: 1 <= k <= n && key == Itoa(k)
  {
    hide Itoa;
  }

  lemma CutWithin(size: nat, minSize: int, chunkSize: nat)
    requires IsPartSize(size, minSize, chunkSize) && (size > 0 ==> chunkSize > 0)
    ensures |Cut(size, chunkSize)| <= 1000
  {
    if size > 0 {
      CutCount(size, chunkSize, MAX_PART_NUM);
    }
  }

  lemma CutStep(size: nat, chunk: nat)
    requires chunk > 0 || size == 0
    ensures |Cut(size, chunk)| == if size == 0 then 0 else 1 + |Cut(if size > chunk then size - chunk else 0, chunk)|
  {}

  lemma StartHeader(chunkSize: nat, link: nat -> string)
    ensures IsHeader(map[CHUNK_KEY := Itoa(chunkSize)], chunkSize, 0, link)
  {}

  // Part numbers have distinct texts, none of them the chunk key.
  lemma AddPart(header: map<string, string>, chunk: nat, part: nat, link: nat -> string)
    requires part >= 1 && IsHeader(header, chunk, part - 1, link)
    ensures Itoa(part) !in header
    ensures IsHeader(header[Itoa(part) := link(part)], chunk, part, link)
  {
    NewKey(part);
    hide Itoa;
    AddKey(header, CHUNK_KEY, Itoa(chunk), part, Itoa, link);
  }

  lemma AddKey(header: map<string, string>, first: string, value: string, part: nat, text: nat -> string, link: nat -> string)
    requires part >= 1 && Keyed(header, first, value, part - 1, text, link)
    requires text(part) != first && forall k: nat | k < part :: text(k) != text(part)
    ensures text(part) !in header
    ensures Keyed(header[text(part) := link(part)], first, value, part, text, link)
  {}

  lemma NewKey(part: nat)
    ensures Itoa(part) != CHUNK_KEY
    ensures forall k: nat | k < part :: Itoa(k) != Itoa(part)
  {
    hide Itoa;
    assert IsDigit(Itoa(part)[0]) && !IsDigit(CHUNK_KEY[0]);
    forall k: nat | k < part ensures Itoa(k) != Itoa(part) {
      if Itoa(k) == Itoa(part) { ItoaInjective(k, part); }
    }
  }
}
