// Standard base64 (RFC 4648, section 4), as encoding/base64's StdEncoding writes and
// reads it, and the cleaning of committed file content (component/repo.go).
module Base64 {
  import opened Wrappers

  // A Go string is a sequence of bytes: characters below 256.
  predicate IsBytes(s: string) { forall i | 0 <= i < |s| :: s[i] as int < 256 }

  predicate InAlphabet(c: char) {
    'A' <= c <= 'Z' || 'a' <= c <= 'z' || '0' <= c <= '9' || c == '+' || c == '/'
  }

  predicate AllAlphabet(s: string) { forall i | 0 <= i < |s| :: InAlphabet(s[i]) }

  function ToChar(v: int): (c: char)
    requires 0 <= v < 64
    ensures InAlphabet(c) && FromChar(c) == v
  {
    if v < 26 then (v + 65) as char
    else if v < 52 then (v + 71) as char
    else if v < 62 then (v - 4) as char
    else if v == 62 then '+' else '/'
  }

  function FromChar(c: char): (v: int)
    requires InAlphabet(c)
    ensures 0 <= v < 64
  {
    if 'A' <= c <= 'Z' then c as int - 65
    else if 'a' <= c <= 'z' then c as int - 71
    else if '0' <= c <= '9' then c as int + 4
    else if c == '+' then 62 else 63
  }

  // ---------------------------------------------------------------- encoding

  // The four sextets of three bytes.
  function Sextets(x: int, y: int, z: int): (q: string)
    requires 0 <= x < 256 && 0 <= y < 256 && 0 <= z < 256
    ensures |q| == 4 && AllAlphabet(q)
  {
    [ToChar(x / 4), ToChar(x % 4 * 16 + y / 16), ToChar(y % 16 * 4 + z / 64), ToChar(z % 64)]
  }

  function Encode(b: string): string
    requires IsBytes(b)
  {
    if b == "" then ""
    else if |b| == 1 then Sextets(b[0] as int, 0, 0)[..2] + "=="
    else if |b| == 2 then Sextets(b[0] as int, b[1] as int, 0)[..3] + "="
    else Sextets(b[0] as int, b[1] as int, b[2] as int) + Encode(b[3..])
  }

  // ---------------------------------------------------------------- decoding

  function Byte(v: int): (c: char)
    ensures c as int == v % 256
  {
    (v % 256) as char
  }

  // One quantum of four characters; padding is allowed in the last quantum only.
  function DecodeQuad(q: string, last: bool): Option<string>
    requires |q| == 4
  {
    if !InAlphabet(q[0]) || !InAlphabet(q[1]) then None
    else
      var s, t := FromChar(q[0]), FromChar(q[1]);
      var x := Byte(s * 4 + t / 16);
      if q[2] == '=' then
        if q[3] == '=' && last then Some([x]) else None
      else if !InAlphabet(q[2]) then None
      else
        var u := FromChar(q[2]);
        var y := Byte(t % 16 * 16 + u / 4);
        if q[3] == '=' then
          if last then Some([x, y]) else None
        else if !InAlphabet(q[3]) then None
        else Some([x, y, Byte(u % 4 * 64 + FromChar(q[3]))])
  }

  function DecodeQuads(s: string): Option<string> {
    if s == "" then Some("")
    else if |s| < 4 then None
    else
      match DecodeQuad(s[..4], |s| == 4)
      case None => None
      case Some(head) =>
        match DecodeQuads(s[4..])
        case None => None
        case Some(tail) => Some(head + tail)
  }

  // The decoder skips line breaks wherever they stand.
  function DropBreaks(s: string): string {
    if s == "" then ""
    else if s[0] == '\r' || s[0] == '\n' then DropBreaks(s[1..])
    else [s[0]] + DropBreaks(s[1..])
  }

  function Decode(s: string): Option<string> { DecodeQuads(DropBreaks(s)) }

  // ---------------------------------------------------------------- cleaning

  predicate Kept(c: char) { InAlphabet(c) || c == '=' }

  function Sanitized(s: string): string {
    if s == "" then ""
    else if Kept(s[0]) then [s[0]] + Sanitized(s[1..])
    else Sanitized(s[1..])
  }

  // strings.ReplaceAll(s, "=", "")
  function NoPadding(s: string): string {
    if s == "" then ""
    else if s[0] == '=' then NoPadding(s[1..])
    else [s[0]] + NoPadding(s[1..])
  }

  // strings.Repeat("=", n)
  function Repeat(n: nat): (s: string)
    ensures |s| == n && forall i | 0 <= i < n :: s[i] == '='
  {
    if n == 0 then "" else "=" + Repeat(n - 1)
  }

  function Padded(s: string): string {
    if |s| % 4 == 0 then s else s + Repeat(4 - |s| % 4)
  }

  // The alphabet characters of a text, in order: all that cleaning looks at.
  function Strip(s: string): (t: string)
    ensures AllAlphabet(t)
  {
    if s == "" then ""
    else if InAlphabet(s[0]) then [s[0]] + Strip(s[1..])
    else Strip(s[1..])
  }

  function Cleaned(s: string): string { Padded(Strip(s)) }

  lemma {:induction false} SanitizedAppend(s: string, c: char)
    ensures Sanitized(s + [c]) == Sanitized(s) + if Kept(c) then [c] else ""
  {
    if s == "" {
      assert Sanitized([c][1..]) == "";
    } else {
      assert (s + [c])[1..] == s[1..] + [c];
      SanitizedAppend(s[1..], c);
    }
  }

  lemma {:induction false} NoPaddingSanitized(s: string)
    ensures NoPadding(Sanitized(s)) == Strip(s)
  {
    if s != "" {
      NoPaddingSanitized(s[1..]);
      if Kept(s[0]) {
        assert Sanitized(s)[1..] == Sanitized(s[1..]);
      }
    }
  }

  method SanitizeBase64(input: string) returns (sb: string)
    ensures sb == Sanitized(input)
  {
    sb := "";
    for i := 0 to |input|
      invariant sb == Sanitized(input[..i])
    {
      var c := input[i];
      SanitizedAppend(input[..i], c);
      assert input[..i + 1] == input[..i] + [c];
      if ('A' <= c <= 'Z') || ('a' <= c <= 'z') || ('0' <= c <= '9') || c == '+' || c == '/' || c == '=' {
        sb := sb + [c];
      }
    }
    assert input[..|input|] == input;
  }

  method CleanBase64(input: string) returns (cleaned: string)
    ensures cleaned == Cleaned(input)
  {
    cleaned := SanitizeBase64(input);
    NoPaddingSanitized(input);
    cleaned := NoPadding(cleaned);
    var m := |cleaned| % 4;
    if m != 0 {
      cleaned := cleaned + Repeat(4 - m);
    }
  }

  // ---------------------------------------------------------------- properties

  lemma {:induction false} StripConcat(a: string, b: string)
    ensures Strip(a + b) == Strip(a) + Strip(b)
  {
    if a == "" {
      assert a + b == b;
    } else {
      assert (a + b)[1..] == a[1..] + b;
      StripConcat(a[1..], b);
    }
  }

  lemma {:induction false} StripAlphabet(s: string)
    requires AllAlphabet(s)
    ensures Strip(s) == s
  {
    if s != "" {
      StripAlphabet(s[1..]);
    }
  }

  lemma {:induction false} StripRepeat(n: nat)
    ensures Strip(Repeat(n)) == ""
  {
    if n > 0 {
      assert Repeat(n)[1..] == Repeat(n - 1);
      StripRepeat(n - 1);
    }
  }

  lemma StripPadded(t: string)
    requires AllAlphabet(t)
    ensures Strip(Padded(t)) == t
  {
    StripAlphabet(t);
    if |t| % 4 != 0 {
      StripConcat(t, Repeat(4 - |t| % 4));
      StripRepeat(4 - |t| % 4);
    }
  }

  // Cleaning what is clean changes nothing, whatever the input was, and the result
  // always has whole quanta.
  lemma CleanedIdempotent(s: string)
    ensures Cleaned(Cleaned(s)) == Cleaned(s)
    ensures |Cleaned(s)| % 4 == 0
  {
    StripPadded(Strip(s));
  }

  // An encoding is its own alphabet characters, padded.
  lemma {:induction false} EncodeIsPadded(b: string)
    requires IsBytes(b)
    ensures Padded(Strip(Encode(b))) == Encode(b)
  {
    if b == "" {
    } else if |b| <= 2 {
      var head, k := Encode(b)[..|b| + 1], 3 - |b|;
      assert Repeat(k) == if k == 1 then "=" else "=" + Repeat(1);
      assert Encode(b) == head + Repeat(k);
      PaddedStrip(head, k);
    } else {
      var head, rest := Encode(b)[..4], Encode(b[3..]);
      assert Encode(b) == head + rest;
      EncodeIsPadded(b[3..]);
      StripConcat(head, rest);
      StripAlphabet(head);
      PaddedConcat(head, Strip(rest));
    }
  }

  lemma PaddedStrip(head: string, k: nat)
    requires AllAlphabet(head) && |head| % 4 != 0 && k == 4 - |head| % 4
    ensures Padded(Strip(head + Repeat(k))) == head + Repeat(k)
  {
    StripConcat(head, Repeat(k));
    StripAlphabet(head);
    StripRepeat(k);
  }

  lemma PaddedConcat(head: string, t: string)
    requires |head| == 4
    ensures Padded(head + t) == head + Padded(t)
  {
    assert |head + t| % 4 == |t| % 4;
    if |t| % 4 != 0 {
      assert (head + t) + Repeat(4 - |t| % 4) == head + (t + Repeat(4 - |t| % 4));
    }
  }

  lemma {:induction false} NoBreaks(s: string)
    requires forall i | 0 <= i < |s| :: Kept(s[i])
    ensures DropBreaks(s) == s
  {
    if s != "" {
      NoBreaks(s[1..]);
    }
  }

  lemma {:induction false} EncodeKept(b: string)
    requires IsBytes(b)
    ensures forall i | 0 <= i < |Encode(b)| :: Kept(Encode(b)[i])
  {
    if |b| > 2 {
      EncodeKept(b[3..]);
    }
  }

  lemma {:induction false} DecodeQuadsEncode(b: string)
    requires IsBytes(b)
    ensures DecodeQuads(Encode(b)) == Some(b)
  {
    hide DecodeQuad, DecodeQuads, Sextets;
    if b == "" {
      NoQuads();
    } else if |b| == 1 {
      DecodeOne(b[0] as int);
      LastQuad(Encode(b));
      assert b == [b[0]];
    } else if |b| == 2 {
      DecodeTwo(b[0] as int, b[1] as int);
      LastQuad(Encode(b));
      assert b == [b[0], b[1]];
    } else {
      DecodeThree(b[0] as int, b[1] as int, b[2] as int, |b| == 3);
      DecodeQuadsEncode(b[3..]);
      var q := Sextets(b[0] as int, b[1] as int, b[2] as int);
      assert Encode(b) == q + Encode(b[3..]);
      EncodeEmpty(b[3..]);
      FirstQuad(q, Encode(b[3..]));
      assert b == [b[0], b[1], b[2]] + b[3..];
    }
  }

  lemma NoQuads()
    ensures DecodeQuads("") == Some("")
  {}

  lemma EncodeEmpty(b: string)
    requires IsBytes(b)
    ensures Encode(b) == "" <==> b == ""
  {}

  lemma FirstQuad(q: string, rest: string)
    requires |q| == 4
    ensures DecodeQuad(q, rest == "").Some? && DecodeQuads(rest).Some? ==>
              DecodeQuads(q + rest) == Some(DecodeQuad(q, rest == "").value + DecodeQuads(rest).value)
  {
    hide DecodeQuad;
    assert (q + rest)[..4] == q && (q + rest)[4..] == rest;
  }

  lemma LastQuad(q: string)
    requires |q| == 4
    ensures DecodeQuads(q) == DecodeQuad(q, true)
  {
    assert q[..4] == q && q[4..] == "";
    if DecodeQuad(q, true).Some? {
      assert DecodeQuad(q, true).value + "" == DecodeQuad(q, true).value;
    }
  }

  // The four sextets hold the three bytes.
  lemma SextetsHold(x: int, y: int, z: int, s: int, t: int, u: int, v: int)
    requires 0 <= x < 256 && 0 <= y < 256 && 0 <= z < 256
    requires s == x / 4 && t == x % 4 * 16 + y / 16 && u == y % 16 * 4 + z / 64 && v == z % 64
    ensures s * 4 + t / 16 == x
    ensures t % 16 * 16 + u / 4 == y
    ensures u % 4 * 64 + v == z
  {}

  lemma SmallByte(x: int, v: int)
    requires 0 <= x < 256 && v == x
    ensures Byte(v) == x as char
  {}

  lemma DecodeSextets(x: int, y: int, z: int)
    requires 0 <= x < 256 && 0 <= y < 256 && 0 <= z < 256
    ensures var q := Sextets(x, y, z);
            && Byte(FromChar(q[0]) * 4 + FromChar(q[1]) / 16) == x as char
            && Byte(FromChar(q[1]) % 16 * 16 + FromChar(q[2]) / 4) == y as char
            && Byte(FromChar(q[2]) % 4 * 64 + FromChar(q[3])) == z as char
  {
    hide Sextets, FromChar, Byte;
    var q := Sextets(x, y, z);
    SextetValues(x, y, z);
    var s, t, u, v := FromChar(q[0]), FromChar(q[1]), FromChar(q[2]), FromChar(q[3]);
    SextetsHold(x, y, z, s, t, u, v);
    SmallByte(x, s * 4 + t / 16);
    SmallByte(y, t % 16 * 16 + u / 4);
    SmallByte(z, u % 4 * 64 + v);
  }

  lemma SextetValues(x: int, y: int, z: int)
    requires 0 <= x < 256 && 0 <= y < 256 && 0 <= z < 256
    ensures var q := Sextets(x, y, z);
            && FromChar(q[0]) == x / 4 && FromChar(q[1]) == x % 4 * 16 + y / 16
            && FromChar(q[2]) == y % 16 * 4 + z / 64 && FromChar(q[3]) == z % 64
  {}

  lemma DecodeOne(x: int)
    requires 0 <= x < 256
    ensures DecodeQuad(Sextets(x, 0, 0)[..2] + "==", true) == Some([x as char])
  {
    DecodeSextets(x, 0, 0);
  }

  lemma DecodeTwo(x: int, y: int)
    requires 0 <= x < 256 && 0 <= y < 256
    ensures DecodeQuad(Sextets(x, y, 0)[..3] + "=", true) == Some([x as char, y as char])
  {
    hide Sextets, FromChar;
    DecodeSextets(x, y, 0);
  }

  lemma DecodeThree(x: int, y: int, z: int, last: bool)
    requires 0 <= x < 256 && 0 <= y < 256 && 0 <= z < 256
    ensures DecodeQuad(Sextets(x, y, z), last) == Some([x as char, y as char, z as char])
  {
    DecodeSextets(x, y, z);
  }

  // Decoding an encoding gives the bytes back.
  lemma DecodeEncode(b: string)
    requires IsBytes(b)
    ensures Decode(Encode(b)) == Some(b)
  {
    EncodeKept(b);
    NoBreaks(Encode(b));
    DecodeQuadsEncode(b);
  }

  // An encoding whose padding was dropped or moved, with any characters outside the
  // alphabet put in anywhere, is cleaned to the encoding itself and decodes to the bytes.
  lemma CleanedRestores(b: string, noisy: string)
    requires IsBytes(b)
    requires Strip(noisy) == Strip(Encode(b))
    ensures Cleaned(noisy) == Encode(b)
    ensures Decode(Cleaned(noisy)) == Some(b)
  {
    EncodeIsPadded(b);
    DecodeEncode(b);
  }

  // Putting in characters outside the alphabet does not change what cleaning sees.
  lemma NoiseIgnored(a: string, noise: string, b: string)
    requires forall i | 0 <= i < |noise| :: !InAlphabet(noise[i])
    ensures Cleaned(a + noise + b) == Cleaned(a + b)
  {
    StripConcat(a + noise, b);
    StripConcat(a, noise);
    StripConcat(a, b);
    StripNoise(noise);
  }

  lemma {:induction false} StripNoise(noise: string)
    requires forall i | 0 <= i < |noise| :: !InAlphabet(noise[i])
    ensures Strip(noise) == ""
  {
    if noise != "" {
      StripNoise(noise[1..]);
    }
  }

  lemma ShortDecodes(t: string)
    requires AllAlphabet(t) && 0 < |t| < 4
    ensures DecodeQuads(Padded(t)).Some? <==> |t| != 1
  {
    LastQuad(Padded(t));
  }

  lemma {:induction false} PaddedDecodes(t: string)
    requires AllAlphabet(t)
    ensures DecodeQuads(Padded(t)).Some? <==> |t| % 4 != 1
  {
    if t == "" {
    } else if |t| < 4 {
      ShortDecodes(t);
    } else {
      PaddedDecodes(t[4..]);
      PaddedConcat(t[..4], t[4..]);
      assert t == t[..4] + t[4..];
      QuadThenRest(t[..4], Padded(t[4..]));
    }
  }

  lemma QuadThenRest(q: string, rest: string)
    requires |q| == 4 && AllAlphabet(q)
    ensures DecodeQuads(q + rest).Some? <==> DecodeQuads(rest).Some?
  {
    assert (q + rest)[..4] == q && (q + rest)[4..] == rest;
  }

  // Cleaned content decodes exactly when its alphabet characters do not leave one over.
  lemma CleanedDecodesIff(s: string)
    ensures Decode(Cleaned(s)).Some? <==> |Strip(s)| % 4 != 1
  {
    var t := Strip(s);
    forall i | 0 <= i < |Padded(t)| ensures Kept(Padded(t)[i]) {}
    NoBreaks(Padded(t));
    PaddedDecodes(t);
  }

  // ---------------------------------------------------------------- the table

  // The alphabet of section 4 of RFC 4648: 0 to 25 are A to Z, 26 to 51 a to z, 52 to 61
  // the digits, then + and /.
  lemma Table(v: int)
    requires 0 <= v < 64
    ensures v < 26 ==> ToChar(v) as int == 'A' as int + v
    ensures 26 <= v < 52 ==> ToChar(v) as int == 'a' as int + (v - 26)
    ensures 52 <= v < 62 ==> ToChar(v) as int == '0' as int + (v - 52)
    ensures v == 62 ==> ToChar(v) == '+'
    ensures v == 63 ==> ToChar(v) == '/'
    ensures FromChar(ToChar(v)) == v
  {}

  // Four characters spell the 24 bits of three bytes, most significant first.
  lemma QuantumBits(x: int, y: int, z: int)
    requires 0 <= x < 256 && 0 <= y < 256 && 0 <= z < 256
    ensures var q := Sextets(x, y, z);
            FromChar(q[0]) * 262144 + FromChar(q[1]) * 4096 + FromChar(q[2]) * 64 + FromChar(q[3]) == x * 65536 + y * 256 + z
  {
    SextetValues(x, y, z);
    SextetsHold(x, y, z, x / 4, x % 4 * 16 + y / 16, y % 16 * 4 + z / 64, z % 64);
    hide Sextets, FromChar;
  }

  // Encodings of section 10 of RFC 4648.
  lemma KnownEncodings()
    ensures Encode("f") == "Zg==" && Encode("fo") == "Zm8=" && Encode("foo") == "Zm9v" && Encode("foob") == "Zm9vYg=="
  {
    assert "foo"[3..] == "" && "foob"[3..] == "b";
    assert Sextets('f' as int, 0, 0) == "ZgAA" && Sextets('f' as int, 'o' as int, 0) == "Zm8A";
    assert Sextets('f' as int, 'o' as int, 'o' as int) == "Zm9v" && Sextets('b' as int, 0, 0) == "YgAA";
  }

  // Only the alphabet, with one or two characters of padding at the very end.
  ghost predicate WellPadded(s: string) {
    && |s| % 4 == 0
    && forall i | 0 <= i < |s| ::
         || InAlphabet(s[i])
         || (s[i] == '=' && (i == |s| - 1 || (i == |s| - 2 && s[|s| - 1] == '=')))
  }

  lemma QuadPadded(q: string)
    requires |q| == 4
    ensures DecodeQuad(q, true).Some? <==> WellPadded(q)
    ensures DecodeQuad(q, false).Some? <==> AllAlphabet(q)
  {}

  lemma PaddedBehind(q: string, rest: string)
    requires |q| == 4 && |rest| >= 4
    ensures WellPadded(q + rest) <==> AllAlphabet(q) && WellPadded(rest)
  {
    var s := q + rest;
    forall i | 0 <= i < 4 ensures s[i] == q[i] {}
    forall i | 0 <= i < |rest| ensures s[i + 4] == rest[i] {}
    if WellPadded(s) {
      assert AllAlphabet(q) by { forall i | 0 <= i < 4 ensures InAlphabet(q[i]) { assert s[i] == q[i]; } }
      forall i | 0 <= i < |rest|
        ensures InAlphabet(rest[i]) || (rest[i] == '=' && (i == |rest| - 1 || (i == |rest| - 2 && rest[|rest| - 1] == '=')))
      {
        assert s[i + 4] == rest[i];
      }
    }
  }

  lemma {:induction false} QuadsPadded(s: string)
    ensures DecodeQuads(s).Some? <==> WellPadded(s)
  {
    if |s| == 4 {
      QuadPadded(s);
      LastQuad(s);
    } else if |s| > 4 {
      QuadsPadded(s[4..]);
      QuadPadded(s[..4]);
      hide DecodeQuad, WellPadded, AllAlphabet;
      if |s| >= 8 { PaddedBehind(s[..4], s[4..]); }
      assert s == s[..4] + s[4..];
      LengthNeeded(s);
      LengthNeeded(s[4..]);
    }
  }

  lemma LengthNeeded(s: string)
    ensures WellPadded(s) ==> |s| % 4 == 0
  {}

  // Content decodes exactly when, line breaks aside, it is alphabet characters in whole
  // quanta with padding at the end only.
  lemma DecodesIff(s: string)
    ensures Decode(s).Some? <==> WellPadded(DropBreaks(s))
  {
    QuadsPadded(DropBreaks(s));
  }

  // Line breaks are skipped wherever they stand.
  lemma BreaksIgnored(a: string, b: string)
    ensures Decode(a + "\n" + b) == Decode(a + "\r\n" + b) == Decode(a + b)
  {
    DropBreaksConcat(a + "\n", b);
    DropBreaksConcat(a, "\n");
    DropBreaksConcat(a + "\r\n", b);
    DropBreaksConcat(a, "\r\n");
    DropBreaksConcat(a, b);
    assert DropBreaks("") == "" && "\n"[1..] == "";
    assert DropBreaks("\n") == "" && "\r\n"[1..] == "\n";
    assert DropBreaks("\r\n") == "";
    assert DropBreaks(a) + "" == DropBreaks(a);
  }

  lemma {:induction false} DropBreaksConcat(a: string, b: string)
    ensures DropBreaks(a + b) == DropBreaks(a) + DropBreaks(b)
  {
    if a == "" {
      assert a + b == b;
    } else {
      assert (a + b)[1..] == a[1..] + b;
      DropBreaksConcat(a[1..], b);
    }
  }
}
