// The README front-matter reader and writer (component/prompt.go) and metaText
// (component/repo.go). Marshalled YAML is a text; the YAML library appears only as
// a pair of functions whose round trip is a hypothesis.
module FrontMatter {
  import opened Wrappers
  import opened Text

  const SEP := "---"

  function MetaOutput(yaml: string): string { SEP + "\n" + yaml + "\n" + SEP }

  // What the writer produces for pieces of a readme and marshalled metadata.
  function Render(pieces: seq<string>, yaml: string): string {
    if |pieces| == 0 then MetaOutput(yaml)
    else if |pieces| == 1 then MetaOutput(yaml) + "\n" + pieces[0]
    else Concat(pieces[1 := MetaOutput(yaml)])
  }

  // strings.Join(splits, ""): adds one piece after another.
  method JoinEmpty(pieces: array<string>) returns (output: string)
    ensures output == Concat(pieces[..])
  {
    output := "";
    for i := 0 to pieces.Length
      invariant output + Concat(pieces[i..]) == Concat(pieces[..])
    {
      assert pieces[i..][0] == pieces[i] && pieces[i..][1..] == pieces[i + 1..];
      assert output + (pieces[i] + Concat(pieces[i + 1..])) == (output + pieces[i]) + Concat(pieces[i + 1..]);
      output := output + pieces[i];
    }
  }

  // GetOutputForReadme: the caller's slice of pieces is overwritten at index 1.
  method GetOutputForReadme(yaml: string, splits: array<string>) returns (output: string)
    modifies splits
    ensures output == Render(old(splits[..]), yaml)
    ensures splits[..] == if splits.Length < 2 then old(splits[..]) else old(splits[..])[1 := MetaOutput(yaml)]
  {
    if splits.Length == 0 {
      output := MetaOutput(yaml);
    } else if splits.Length == 1 {
      output := MetaOutput(yaml) + "\n" + splits[0];
    } else {
      splits[1] := MetaOutput(yaml);
      output := JoinEmpty(splits);
    }
  }

  // metaText, which is also the piece GetMetaMapFromReadMe hands to the YAML parser.
  function MetaText(readme: string): string {
    var pieces := Split(readme, SEP);
    if |pieces| < 2 then "" else pieces[1]
  }

  // The part of GetMetaMapFromReadMe after base64: no front matter gives empty metadata.
  function ReadMeta<M>(readme: string, parse: string -> Option<M>, empty: M): Option<M> {
    if |Split(readme, SEP)| > 1 then parse(MetaText(readme)) else Some(empty)
  }

  // Read a readme and write it back with new metadata.
  function Rewrite(readme: string, yaml: string): string { Render(Split(readme, SEP), yaml) }

  // The front matter block as the reader sees it.
  function Block(yaml: string): string { "\n" + yaml + "\n" }

  // What stands before the front matter: nothing when there is none.
  function Prefix(readme: string): string {
    var pieces := Split(readme, SEP);
    if |pieces| == 1 then "" else pieces[0]
  }

  // What the writer keeps of the body: the pieces after the metadata, separators dropped.
  function KeptBody(readme: string): string {
    var pieces := Split(readme, SEP);
    if |pieces| == 1 then "\n" + readme else Concat(pieces[2..])
  }

  lemma MatchIsDashes(s: string, i: int)
    ensures MatchAt(s, SEP, i) <==> 0 <= i && i + 3 <= |s| && s[i] == '-' && s[i + 1] == '-' && s[i + 2] == '-'
  {
    if 0 <= i && i + 3 <= |s| {
      assert s[i..i + 3] == [s[i], s[i + 1], s[i + 2]];
    }
  }

  // A piece is clean exactly when it has no separator and does not end in a dash.
  lemma CleanIff(p: string)
    ensures Clean(p, SEP) <==> Free(p, SEP) && (p == "" || p[|p| - 1] != '-')
  {
    forall i ensures MatchAt(p, SEP, i) ==> MatchAt(p + SEP, SEP, i) {
      MatchIsDashes(p, i);
      MatchIsDashes(p + SEP, i);
    }
    if p != "" {
      MatchIsDashes(p + SEP, |p| - 1);
    }
    if Free(p, SEP) && (p == "" || p[|p| - 1] != '-') {
      forall i | 0 <= i < |p| ensures !MatchAt(p + SEP, SEP, i) {
        MatchIsDashes(p, i);
        MatchIsDashes(p + SEP, i);
      }
    }
  }

  lemma ConcatOne(p: string)
    ensures Concat([p]) == p
  {
    assert [p][1..] == [];
  }

  // Gluing clean pieces and a last separator-free one makes no new separator.
  lemma {:induction false} ConcatFree(pieces: seq<string>)
    requires forall k | 0 <= k < |pieces| :: Free(pieces[k], SEP)
    requires forall k | 0 <= k < |pieces| - 1 :: Clean(pieces[k], SEP)
    ensures Free(Concat(pieces), SEP)
  {
    if |pieces| == 0 {
      forall i ensures !MatchAt("", SEP, i) {}
    } else {
      var p, q := pieces[0], Concat(pieces[1..]);
      ConcatFree(pieces[1..]);
      CleanIff(p);
      if |pieces| == 1 {
        assert pieces[1..] == [];
        assert Concat(pieces) == p;
      } else {
        forall i ensures !MatchAt(p + q, SEP, i) {
          MatchIsDashes(p + q, i);
          MatchIsDashes(p, i);
          MatchIsDashes(q, i - |p|);
        }
      }
    }
  }

  lemma BlockFree(yaml: string)
    ensures Free(yaml, SEP) ==> Free(Block(yaml), SEP) && Clean(Block(yaml), SEP)
    ensures Free(Block(yaml), SEP) ==> Free(yaml, SEP)
  {
    var b := Block(yaml);
    forall i ensures MatchAt(b, SEP, i) <==> MatchAt(yaml, SEP, i - 1) {
      MatchIsDashes(b, i);
      MatchIsDashes(yaml, i - 1);
    }
    forall i ensures MatchAt(yaml, SEP, i) <==> MatchAt(b, SEP, i + 1) {
      MatchIsDashes(yaml, i);
      MatchIsDashes(b, i + 1);
    }
    CleanIff(b);
  }

  lemma PrefixClean(readme: string)
    ensures Clean(Prefix(readme), SEP)
  {
    SplitPieces(readme, SEP);
  }

  lemma KeptBodyFree(readme: string)
    ensures Free(KeptBody(readme), SEP)
  {
    SplitPieces(readme, SEP);
    var pieces := Split(readme, SEP);
    if |pieces| == 1 {
      JoinSplit(readme, SEP);
      ConcatFree(["\n", readme]) by {
        assert forall i :: !MatchAt("\n", SEP, i);
        CleanIff("\n");
      }
      ConcatOne(readme);
      assert ["\n", readme][1..] == [readme];
      assert Concat(["\n", readme]) == "\n" + readme;
    } else {
      ConcatFree(pieces[2..]);
    }
  }

  // The written readme laid out as prefix, block and body.
  lemma RewriteLayout(readme: string, yaml: string)
    ensures Rewrite(readme, yaml) == Prefix(readme) + SEP + (Block(yaml) + SEP + KeptBody(readme))
  {
    var pieces := Split(readme, SEP);
    if |pieces| == 1 {
      JoinSplit(readme, SEP);
    } else {
      var out := pieces[1 := MetaOutput(yaml)];
      assert out[1..][0] == MetaOutput(yaml) && out[1..][1..] == pieces[2..];
      assert Concat(out) == pieces[0] + (MetaOutput(yaml) + Concat(pieces[2..]));
    }
  }

  // Re-reading what the writer produced gives exactly three pieces, the middle one
  // being the metadata just written.
  lemma ReadBack(readme: string, yaml: string)
    requires Free(yaml, SEP)
    ensures Split(Rewrite(readme, yaml), SEP) == [Prefix(readme), Block(yaml), KeptBody(readme)]
  {
    RewriteLayout(readme, yaml);
    BlockFree(yaml);
    PrefixClean(readme);
    KeptBodyFree(readme);
    SplitClean(Prefix(readme), SEP, Block(yaml) + SEP + KeptBody(readme));
    SplitClean(Block(yaml), SEP, KeptBody(readme));
    SplitFree(KeptBody(readme), SEP);
  }

  // The metadata is read back exactly when its YAML text holds no separator.
  lemma ReadBackIff(readme: string, yaml: string)
    ensures MetaText(Rewrite(readme, yaml)) == Block(yaml) <==> Free(yaml, SEP)
  {
    if Free(yaml, SEP) {
      ReadBack(readme, yaml);
    } else {
      BlockFree(yaml);
      var again := Rewrite(readme, yaml);
      SplitPieces(again, SEP);
      assert Block(yaml) != "";
    }
  }

  // With a YAML library whose output parses back, reading a rewritten readme
  // returns the metadata that was written.
  lemma MetaRoundTrip<M>(readme: string, m: M, marshal: M -> string, parse: string -> Option<M>, empty: M)
    requires Free(marshal(m), SEP)
    requires parse(Block(marshal(m))) == Some(m)
    ensures ReadMeta(Rewrite(readme, marshal(m)), parse, empty) == Some(m)
  {
    ReadBack(readme, marshal(m));
  }

  // A later write wins over an earlier one and leaves no trace of it.
  lemma LastWriteWins(readme: string, first: string, second: string)
    requires Free(first, SEP)
    ensures Rewrite(Rewrite(readme, first), second) == Rewrite(readme, second)
  {
    ReadBack(readme, first);
    var again := Rewrite(readme, first);
    var pieces := Split(again, SEP);
    assert pieces[2..] == [KeptBody(readme)];
    ConcatOne(KeptBody(readme));
    assert KeptBody(again) == KeptBody(readme);
    assert Prefix(again) == Prefix(readme);
    RewriteLayout(again, second);
    RewriteLayout(readme, second);
  }

  // Writing the same metadata again changes nothing.
  lemma RewriteIdempotent(readme: string, yaml: string)
    requires Free(yaml, SEP)
    ensures Rewrite(Rewrite(readme, yaml), yaml) == Rewrite(readme, yaml)
  {
    LastWriteWins(readme, yaml, yaml);
  }

  lemma {:induction false} JoinLength(pieces: seq<string>)
    requires pieces != []
    ensures |Join(pieces, SEP)| == |Concat(pieces)| + 3 * (|pieces| - 1)
  {
    if |pieces| == 1 {
      assert pieces[1..] == [];
    } else {
      JoinLength(pieces[1..]);
    }
  }

  // The text of a readme that is not a front matter block, that is not enclosed by the
  // first two separators. With fewer than two separators that is all of it.
  function Outside(readme: string): string {
    var pieces := Split(readme, SEP);
    if |pieces| < 3 then readme else pieces[0] + Join(pieces[2..], SEP)
  }

  // What a write leaves outside its new block. Without a separator everything, behind a
  // newline; with one separator only what stands before it; with more, everything but the
  // separators past the second.
  lemma OutsideWritten(readme: string, yaml: string)
    requires Free(yaml, SEP)
    ensures var pieces := Split(readme, SEP);
            Outside(Rewrite(readme, yaml)) == if |pieces| == 1 then "\n" + readme else pieces[0] + Concat(pieces[2..])
  {
    ReadBack(readme, yaml);
    var again := Split(Rewrite(readme, yaml), SEP);
    assert again[2..] == [KeptBody(readme)];
    assert Outside(Rewrite(readme, yaml)) == Prefix(readme) + KeptBody(readme);
  }

  // No text outside the old metadata is lost, apart from the newline put before a readme
  // without a separator, exactly when the readme has no separator or two: when it splits
  // into one piece or three. With one separator it and the text behind it are lost, with
  // more than two every separator past the second is.
  lemma BodyKeptIff(readme: string, yaml: string)
    requires Free(yaml, SEP)
    ensures var n := |Split(readme, SEP)|;
            Outside(Rewrite(readme, yaml)) == (if n == 1 then "\n" else "") + Outside(readme) <==> n == 1 || n == 3
    ensures var pieces := Split(readme, SEP);
            |pieces| == 2 ==> Outside(Rewrite(readme, yaml)) == pieces[0] && readme == pieces[0] + SEP + pieces[1]
    ensures var pieces := Split(readme, SEP);
            |pieces| >= 3 ==> |Outside(readme)| == |Outside(Rewrite(readme, yaml))| + 3 * (|pieces| - 3)
  {
    var pieces := Split(readme, SEP);
    OutsideWritten(readme, yaml);
    JoinSplit(readme, SEP);
    if |pieces| >= 3 {
      JoinLength(pieces[2..]);
      if |pieces| == 3 {
        assert pieces[2..] == [pieces[2]];
        ConcatOne(pieces[2]);
      }
    } else if |pieces| == 2 {
      assert pieces[2..] == [] && pieces[1..] == [pieces[1]];
      assert readme == pieces[0] + SEP + pieces[1];
    }
  }

  // A readme holding one separator loses all the text behind it.
  lemma OneSeparatorLosesTail(head: string, tail: string, yaml: string)
    requires Clean(head, SEP) && Free(tail, SEP)
    ensures Rewrite(head + SEP + tail, yaml) == head + MetaOutput(yaml)
  {
    SplitClean(head, SEP, tail);
    SplitFree(tail, SEP);
    RewriteLayout(head + SEP + tail, yaml);
    assert Split(head + SEP + tail, SEP)[2..] == [];
  }

  // A README without front matter gets it in front; one that has it gets the new one in its
  // place.
  lemma WrittenTexts(body: string, yaml: string)
    requires Free(body, "---")
    ensures Render([], yaml) == "---\n" + yaml + "\n---"
    ensures Rewrite(body, yaml) == "---\n" + yaml + "\n---\n" + body
  {
    SplitFree(body, SEP);
  }

  lemma WrittenOver(meta: string, body: string, yaml: string)
    requires Free(meta, "---") && Free(body, "---")
    ensures Rewrite("---\n" + meta + "\n---\n" + body, yaml) == "---\n" + yaml + "\n---\n" + body
  {
    LastWriteWins(body, meta, yaml);
    WrittenTexts(body, meta);
    WrittenTexts(body, yaml);
  }

  // Of such a README the text between the separators is parsed; with one separator it is
  // the text behind it, and without one there is no metadata.
  lemma ReadParses<M>(meta: string, body: string, parse: string -> Option<M>, empty: M)
    requires Free(meta, "---") && Free(body, "---")
    ensures ReadMeta("---\n" + meta + "\n---\n" + body, parse, empty) == parse("\n" + meta + "\n")
    ensures ReadMeta("---" + body, parse, empty) == parse(body)
    ensures ReadMeta(body, parse, empty) == Some(empty)
  {
    WrittenTexts(body, meta);
    ReadBack(body, meta);
    SplitFree(body, SEP);
    CleanIff("");
    SplitClean("", SEP, body);
    assert "" + SEP + body == "---" + body;
  }
}
