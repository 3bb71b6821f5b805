// Go's strings.Split and strings.Join, and decimal text of a natural number.
// A Go string is modelled as a sequence of characters.
module Text {

  predicate MatchAt(s: string, sep: string, i: int) {
    0 <= i && i + |sep| <= |s| && s[i..i + |sep|] == sep
  }

  // No occurrence of sep anywhere in s.
  ghost predicate Free(s: string, sep: string) {
    forall i :: !MatchAt(s, sep, i)
  }

  // In piece + sep the separator is found no earlier than right after the piece.
  ghost predicate Clean(piece: string, sep: string) {
    forall i | 0 <= i < |piece| :: !MatchAt(piece + sep, sep, i)
  }

  // The leftmost occurrence at or after position from, or -1.
  function Index(s: string, sep: string, from: nat): (r: int)
    requires sep != []
    ensures r == -1 || (from <= r && MatchAt(s, sep, r))
    ensures forall i | from <= i && (r == -1 || i < r) :: !MatchAt(s, sep, i)
    decreases |s| - from
  {
    if from + |sep| > |s| then -1
    else if MatchAt(s, sep, from) then from
    else Index(s, sep, from + 1)
  }

  function Split(s: string, sep: string): (pieces: seq<string>)
    requires sep != []
    ensures pieces != []
  {
    var i := Index(s, sep, 0);
    if i == -1 then [s] else [s[..i]] + Split(s[i + |sep|..], sep)
  }

  function Join(pieces: seq<string>, sep: string): string {
    if |pieces| == 0 then ""
    else if |pieces| == 1 then pieces[0]
    else pieces[0] + sep + Join(pieces[1..], sep)
  }

  function Concat(pieces: seq<string>): string {
    if |pieces| == 0 then "" else pieces[0] + Concat(pieces[1..])
  }

  // Joining the pieces with the separator gives the text back.
  lemma {:induction false} JoinSplit(s: string, sep: string)
    requires sep != []
    ensures Join(Split(s, sep), sep) == s
    decreases |s|
  {
    var i := Index(s, sep, 0);
    if i != -1 {
      var rest := s[i + |sep|..];
      JoinSplit(rest, sep);
      assert Split(s, sep)[1..] == Split(rest, sep);
      assert s == s[..i] + sep + rest;
    }
  }

  lemma FirstPiece(s: string, sep: string)
    requires sep != [] && Index(s, sep, 0) != -1
    ensures Free(s[..Index(s, sep, 0)], sep) && Clean(s[..Index(s, sep, 0)], sep)
  {
    var i := Index(s, sep, 0);
    assert s[..i] + sep == s[..i + |sep|];
    PrefixMatch(s, i, sep);
    PrefixMatch(s, i + |sep|, sep);
  }

  lemma PrefixMatch(s: string, n: nat, sep: string)
    requires n <= |s|
    ensures forall j :: MatchAt(s[..n], sep, j) ==> MatchAt(s, sep, j)
  {
    forall j | MatchAt(s[..n], sep, j) ensures MatchAt(s, sep, j) {
      assert s[j..j + |sep|] == s[..n][j..j + |sep|];
    }
  }

  // Every piece is free of the separator, and every piece but the last is clean.
  lemma {:induction false} SplitPieces(s: string, sep: string)
    requires sep != []
    ensures forall k | 0 <= k < |Split(s, sep)| :: Free(Split(s, sep)[k], sep)
    ensures forall k | 0 <= k < |Split(s, sep)| - 1 :: Clean(Split(s, sep)[k], sep)
    decreases |s|
  {
    var i := Index(s, sep, 0);
    if i != -1 {
      SplitPieces(s[i + |sep|..], sep);
      FirstPiece(s, sep);
      hide Free, Clean;
    }
  }

  // A text without the separator is one piece.
  lemma SplitFree(s: string, sep: string)
    requires sep != [] && Free(s, sep)
    ensures Split(s, sep) == [s]
  {
    assert Index(s, sep, 0) == -1;
  }

  // A clean piece followed by the separator is split off as it stands.
  lemma SplitClean(piece: string, sep: string, rest: string)
    requires sep != [] && Clean(piece, sep)
    ensures Split(piece + sep + rest, sep) == [piece] + Split(rest, sep)
  {
    var s := piece + sep + rest;
    assert s[|piece|..|piece| + |sep|] == sep;
    assert MatchAt(s, sep, |piece|);
    forall j | 0 <= j < |piece| ensures !MatchAt(s, sep, j) {
      if MatchAt(s, sep, j) {
        assert (piece + sep)[j..j + |sep|] == s[j..j + |sep|];
        assert MatchAt(piece + sep, sep, j);
      }
    }
    assert Index(s, sep, 0) == |piece|;
    assert s[..|piece|] == piece && s[|piece| + |sep|..] == rest;
  }

  // ---------------------------------------------------------------- decimal text

  function Digit(d: nat): (c: char)
    requires d < 10
    ensures IsDigit(c) && DigitValue(c) == d
  {
    '0' + d as char
  }

  predicate IsDigit(c: char) { '0' <= c <= '9' }

  function DigitValue(c: char): (d: nat)
    requires IsDigit(c)
    ensures d < 10
  {
    c as int - '0' as int
  }

  // strconv.Itoa on a natural number.
  function Itoa(n: nat): (s: string)
    ensures s != [] && forall i | 0 <= i < |s| :: IsDigit(s[i])
    ensures s[0] == '0' ==> n == 0
  {
    if n < 10 then [Digit(n)] else Itoa(n / 10) + [Digit(n % 10)]
  }

  function Value(s: string): nat
    requires forall i | 0 <= i < |s| :: IsDigit(s[i])
  {
    if s == [] then 0 else Value(s[..|s| - 1]) * 10 + DigitValue(s[|s| - 1])
  }

  lemma {:induction false} ValueItoa(n: nat)
    ensures Value(Itoa(n)) == n
  {
    if n < 10 {
      assert Itoa(n)[..0] == [];
    } else {
      ValueItoa(n / 10);
      assert Itoa(n)[..|Itoa(n)| - 1] == Itoa(n / 10);
    }
  }

  lemma ItoaInjective(m: nat, n: nat)
    requires Itoa(m) == Itoa(n)
    ensures m == n
  {
    ValueItoa(m);
    ValueItoa(n);
  }

  // Decimal texts as they are written.
  lemma KnownTexts()
    ensures Itoa(0) == "0" && Itoa(7) == "7" && Itoa(1000) == "1000" && Itoa(500) == "500"
  {
    assert Itoa(5) == "5" && Itoa(50) == "50" && Itoa(1) == "1" && Itoa(10) == "10" && Itoa(100) == "100";
  }

  lemma Digits(d: nat)
    requires d < 10
    ensures Digit(d) == "0123456789"[d]
  {}
}
