// The README front matter as it is stored: file contents travel in base64 between the
// component and the git server (component/prompt.go).
module StoredReadme {
  import opened Wrappers
  import opened Text
  import opened FrontMatter
  import opened Base64

  datatype Meta<M> = Meta(values: M, pieces: seq<string>)

  // GetMetaMapFromReadMe on the content the git server returns.
  function GetMetaMapFromReadMe<M>(content: string, parse: string -> Option<M>, empty: M): Option<Meta<M>> {
    match Decode(content)
    case None => None
    case Some(readme) =>
      match ReadMeta(readme, parse, empty)
      case None => None
      case Some(m) => Some(Meta(m, Split(readme, SEP)))
  }

  // The content that is sent back after the pieces were rendered with new metadata.
  function Written(pieces: seq<string>, yaml: string): string
    requires IsBytes(Render(pieces, yaml))
  {
    Encode(Render(pieces, yaml))
  }

  lemma {:induction false} JoinBytes(pieces: seq<string>, sep: string)
    requires IsBytes(Join(pieces, sep))
    ensures forall k | 0 <= k < |pieces| :: IsBytes(pieces[k])
  {
    if |pieces| == 1 {
      assert pieces[0] == Join(pieces, sep);
    } else if |pieces| > 1 {
      var j := Join(pieces, sep);
      assert j == pieces[0] + sep + Join(pieces[1..], sep);
      assert pieces[0] == j[..|pieces[0]|] && Join(pieces[1..], sep) == j[|pieces[0] + sep|..];
      JoinBytes(pieces[1..], sep);
      forall k | 1 <= k < |pieces| ensures IsBytes(pieces[k]) { assert pieces[k] == pieces[1..][k - 1]; }
    }
  }

  lemma {:induction false} ConcatBytes(pieces: seq<string>)
    requires forall k | 0 <= k < |pieces| :: IsBytes(pieces[k])
    ensures IsBytes(Concat(pieces))
  {
    if pieces != [] {
      ConcatBytes(pieces[1..]);
    }
  }

  lemma RenderBytes(pieces: seq<string>, yaml: string)
    requires IsBytes(yaml) && forall k | 0 <= k < |pieces| :: IsBytes(pieces[k])
    ensures IsBytes(Render(pieces, yaml))
  {
    assert IsBytes(MetaOutput(yaml));
    hide MetaOutput;
    if |pieces| >= 2 {
      ConcatBytes(pieces[1 := MetaOutput(yaml)]);
    }
  }

  lemma RewriteBytes(readme: string, yaml: string)
    requires IsBytes(readme) && IsBytes(yaml)
    ensures IsBytes(Rewrite(readme, yaml))
  {
    hide Split, Render, Rewrite, Join, MetaOutput;
    var pieces := Split(readme, SEP);
    RewriteRenders(readme, yaml);
    JoinSplit(readme, SEP);
    JoinBytes(pieces, SEP);
    RenderBytes(pieces, yaml);
  }

  lemma RewriteRenders(readme: string, yaml: string)
    ensures Rewrite(readme, yaml) == Render(Split(readme, SEP), yaml)
  {}

  lemma {:induction false} DecodedBytes(s: string)
    ensures DecodeQuads(s).Some? ==> IsBytes(DecodeQuads(s).value)
  {
    if |s| >= 4 {
      DecodedBytes(s[4..]);
      QuadBytes(s[..4], |s| == 4);
      hide DecodeQuad;
    }
  }

  lemma QuadBytes(q: string, last: bool)
    requires |q| == 4
    ensures DecodeQuad(q, last).Some? ==> IsBytes(DecodeQuad(q, last).value)
  {
    hide FromChar, InAlphabet;
  }

  // Whatever content was stored, if it was read successfully then reading what was
  // written over it returns the metadata written, and the three pieces of the new readme.
  lemma StoredRoundTrip<M>(content: string, m: M, marshal: M -> string, parse: string -> Option<M>, empty: M)
    requires Decode(content).Some? && IsBytes(marshal(m)) && Free(marshal(m), SEP)
    requires parse(Block(marshal(m))) == Some(m)
    ensures var readme := Decode(content).value;
            && IsBytes(Rewrite(readme, marshal(m)))
            && GetMetaMapFromReadMe(Written(Split(readme, SEP), marshal(m)), parse, empty)
               == Some(Meta(m, [Prefix(readme), Block(marshal(m)), KeptBody(readme)]))
  {
    var readme := Decode(content).value;
    DecodedBytes(DropBreaks(content));
    RewriteBytes(readme, marshal(m));
    DecodeEncode(Rewrite(readme, marshal(m)));
    ReadBack(readme, marshal(m));
    MetaRoundTrip(readme, m, marshal, parse, empty);
  }

  // Reading fails exactly when the content does not decode, or there is a separator and the
  // text behind the first one does not parse.
  lemma ReadFailsIff<M>(content: string, parse: string -> Option<M>, empty: M)
    ensures GetMetaMapFromReadMe(content, parse, empty) == None
       <==> Decode(content) == None || (!Free(Decode(content).value, "---") && parse(MetaText(Decode(content).value)) == None)
  {
    if Decode(content).Some? {
      OnePieceIff(Decode(content).value);
    }
  }

  lemma OnePieceIff(readme: string)
    ensures |Split(readme, "---")| == 1 <==> Free(readme, "---")
  {
    if Free(readme, "---") {
      SplitFree(readme, "---");
    } else {
      SplitPieces(readme, "---");
      JoinSplit(readme, "---");
    }
  }
}
