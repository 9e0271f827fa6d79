/**
 * The inventor line of a patent: `inventors.split(/[;；]/)`, each piece
 * trimmed, a full-width comma after every piece but the last, and bold for a
 * piece that mentions the owner's Chinese name. The pattern has no capturing
 * group, so the separators themselves are dropped.
 */
module InventorSplit {
  import opened Strings
  import opened Rendering

  /** An ASCII or a full-width semicolon. */
  predicate IsInventorSep(c: char) {
    c == ';' || c == '；'
  }

  predicate SepFree(t: string) {
    forall k :: 0 <= k < |t| ==> !IsInventorSep(t[k])
  }

  /** The separators of `s`, in the order they occur. */
  function Seps(s: string): (r: string)
    ensures forall k :: 0 <= k < |r| ==> IsInventorSep(r[k])
  {
    if |s| == 0 then ""
    else if IsInventorSep(s[0]) then [s[0]] + Seps(s[1..])
    else Seps(s[1..])
  }

  /** The pieces written back with the separators between them. */
  function Interleave(parts: seq<string>, seps: string): string
    requires |parts| == |seps| + 1
    decreases |seps|
  {
    if |seps| == 0 then parts[0]
    else parts[0] + [seps[0]] + Interleave(parts[1..], seps[1..])
  }

  /** Interleaving with one more character at the front of the first piece. */
  lemma {:induction false} InterleaveConsChar(c: char, parts: seq<string>, seps: string)
    requires |parts| == |seps| + 1
    ensures Interleave([[c] + parts[0]] + parts[1..], seps) == [c] + Interleave(parts, seps)
  {
    var ps := [[c] + parts[0]] + parts[1..];
    if |seps| > 0 {
      assert ps[1..] == parts[1..];
    }
  }

  /**
   * `s.split(/[;；]/)`: one piece more than there are separators, no
   * separator inside a piece, and the pieces rejoined with the separators give
   * back `s`. The empty line gives one empty piece.
   */
  function SplitInventors(s: string): (parts: seq<string>)
    ensures |parts| == |Seps(s)| + 1
    ensures forall i :: 0 <= i < |parts| ==> SepFree(parts[i])
    ensures Interleave(parts, Seps(s)) == s
    decreases |s|
  {
    if |s| == 0 then [""]
    else
      var rest := SplitInventors(s[1..]);
      if IsInventorSep(s[0]) then
        assert ([""] + rest)[1..] == rest;
        [""] + rest
      else
        var parts := [[s[0]] + rest[0]] + rest[1..];
        InterleaveConsChar(s[0], rest, Seps(s[1..]));
        assert s == [s[0]] + s[1..];
        assert forall i :: 1 <= i < |parts| ==> parts[i] == rest[i];
        parts
  }

  /** The split pieces are the only way to cut `s` at its separators. */
  lemma {:induction false} SplitOfInterleave(parts: seq<string>, seps: string)
    requires |parts| == |seps| + 1
    requires forall k :: 0 <= k < |seps| ==> IsInventorSep(seps[k])
    requires forall i :: 0 <= i < |parts| ==> SepFree(parts[i])
    ensures SplitInventors(Interleave(parts, seps)) == parts
    ensures Seps(Interleave(parts, seps)) == seps
    decreases |seps|, |parts[0]|
  {
    var s := Interleave(parts, seps);
    if |parts[0]| > 0 {
      var c := parts[0][0];
      var shorter := [parts[0][1..]] + parts[1..];
      assert parts[0] == [c] + shorter[0];
      assert shorter[1..] == parts[1..];
      assert parts == [[c] + shorter[0]] + shorter[1..];
      assert forall i :: 0 <= i < |shorter| ==> SepFree(shorter[i]);
      SplitOfInterleave(shorter, seps);
      InterleaveConsChar(c, shorter, seps);
      assert s == [c] + Interleave(shorter, seps);
      assert s[1..] == Interleave(shorter, seps);
    } else if |seps| > 0 {
      assert s == [seps[0]] + Interleave(parts[1..], seps[1..]);
      assert s[1..] == Interleave(parts[1..], seps[1..]);
      SplitOfInterleave(parts[1..], seps[1..]);
      assert parts == [""] + parts[1..];
      assert seps == [seps[0]] + seps[1..];
    }
  }

  /** Each piece followed by `sep`, except the last. */
  function Suffixed(parts: seq<string>, sep: string): (r: seq<string>)
    ensures |r| == |parts|
  {
    seq(|parts|, i requires 0 <= i < |parts| => parts[i] + (if i < |parts| - 1 then sep else ""))
  }

  /** Writing out the suffixed pieces is `parts.join(sep)`. */
  lemma {:induction false} SuffixedIsJoin(parts: seq<string>, sep: string)
    ensures Concat(Suffixed(parts, sep)) == JoinWith(parts, sep)
  {
    var r := Suffixed(parts, sep);
    if |parts| == 1 {
      assert r[1..] == [];
    } else if |parts| > 1 {
      assert r[1..] == Suffixed(parts[1..], sep);
      SuffixedIsJoin(parts[1..], sep);
    }
  }

  /** The name holds no whitespace, so trimming cannot cut into it. */
  lemma HanNameIsSolid()
    ensures Solid(HanName)
  {
  }

  /** `f` applied to every piece. */
  function MapParts(f: string -> string, parts: seq<string>): seq<string> {
    seq(|parts|, i requires 0 <= i < |parts| => f(parts[i]))
  }

  /** Every piece trimmed. */
  function Trimmed(parts: seq<string>): seq<string> {
    MapParts(Trim, parts)
  }

  lemma MapPartsOfThree(f: string -> string, a: string, b: string, c: string)
    ensures MapParts(f, [a, b, c]) == [f(a), f(b), f(c)]
  {
  }

  /**
   * The rendered inventor line: the trimmed pieces, a full-width comma after
   * each but the last, so that the line reads `trimmed.join('，')`; a piece is
   * bold exactly when its displayed name mentions 梁爽.
   */
  function InventorSpans(inventors: string): (spans: seq<Span>)
    ensures |spans| == |Seps(inventors)| + 1
    ensures Texts(spans) == Suffixed(Trimmed(SplitInventors(inventors)), "，")
    ensures Concat(Texts(spans)) == JoinWith(Trimmed(SplitInventors(inventors)), "，")
    ensures forall i :: 0 <= i < |spans| ==>
      (spans[i].bold <==> Contains(Trimmed(SplitInventors(inventors))[i], HanName))
  {
    var parts := SplitInventors(inventors);
    var spans := seq(|parts|, i requires 0 <= i < |parts| =>
      Span(Trim(parts[i]) + (if i < |parts| - 1 then "，" else ""), Contains(parts[i], HanName)));
    assert Texts(spans) == Suffixed(Trimmed(parts), "，");
    SuffixedIsJoin(Trimmed(parts), "，");
    HanNameIsSolid();
    forall i | 0 <= i < |spans|
      ensures spans[i].bold <==> Contains(Trimmed(parts)[i], HanName)
    {
      TrimKeepsSolidPattern(parts[i], HanName);
    }
    spans
  }

  // The example lemmas below receive their literal through a parameter pinned
  // by `requires`: written inline, the literal would let the verifier unfold
  // `Trim` and the split on it eagerly and run out of resources.

  /** The pieces of a mixed-separator line with a space after the ASCII semicolon. */
  lemma SplitExample(line: string)
    requires line == "张三; 梁爽；李四"
    ensures SplitInventors(line) == ["张三", " 梁爽", "李四"]
  {
    SplitOfInterleave(["张三", " 梁爽", "李四"], ";；");
    assert Interleave(["张三", " 梁爽", "李四"], ";；") == line;
  }

  lemma TrimmedOfThree(a: string, b: string, c: string)
    ensures Trimmed([a, b, c]) == [Trim(a), Trim(b), Trim(c)]
  {
    MapPartsOfThree(Trim, a, b, c);
  }

  /** The first example piece has no blank to trim. */
  lemma TrimFirstPiece(parts: seq<string>)
    requires parts == ["张三", " 梁爽", "李四"]
    ensures Trim(parts[0]) == "张三"
  {
    TrimOfUnpadded(parts[0]);
  }

  /** The second example piece loses its leading space. */
  lemma TrimSecondPiece(parts: seq<string>)
    requires parts == ["张三", " 梁爽", "李四"]
    ensures Trim(parts[1]) == "梁爽"
  {
    TrimOneLeadingSpace(' ', "梁爽");
    assert parts[1] == [' '] + "梁爽";
  }

  /** The third example piece has no blank to trim. */
  lemma TrimThirdPiece(parts: seq<string>)
    requires parts == ["张三", " 梁爽", "李四"]
    ensures Trim(parts[2]) == "李四"
  {
    TrimOfUnpadded(parts[2]);
  }

  lemma TrimmedOfTrimmedThree(parts: seq<string>)
    requires |parts| == 3
    requires Trim(parts[0]) == "张三" && Trim(parts[1]) == "梁爽" && Trim(parts[2]) == "李四"
    ensures Trimmed(parts) == ["张三", "梁爽", "李四"]
  {
    TrimmedOfThree(parts[0], parts[1], parts[2]);
    assert parts == [parts[0], parts[1], parts[2]];
  }

  /** The pieces of the example line, trimmed: the space before 梁爽 goes. */
  lemma TrimmedPieces(parts: seq<string>)
    requires parts == ["张三", " 梁爽", "李四"]
    ensures Trimmed(parts) == ["张三", "梁爽", "李四"]
  {
    TrimFirstPiece(parts);
    TrimSecondPiece(parts);
    TrimThirdPiece(parts);
    TrimmedOfTrimmedThree(parts);
  }

  lemma OnlyOwnerMentioned()
    ensures !Contains("张三", HanName) && Contains("梁爽", HanName) && !Contains("李四", HanName)
  {
    assert OccursAt("梁爽", HanName, 0);
    if Contains("张三", HanName) {
      ContainsHasFirstChar("张三", HanName);
    }
    if Contains("李四", HanName) {
      ContainsHasFirstChar("李四", HanName);
    }
  }

  /**
   * Only the owner is bold, and the line reads 张三，梁爽，李四. The line is a
   * parameter pinned to the literal, as for the other examples here.
   */
  lemma InventorSpansExample(line: string)
    requires line == "张三; 梁爽；李四"
    ensures var spans := InventorSpans(line);
      && |spans| == 3
      && !spans[0].bold && spans[1].bold && !spans[2].bold
      && Concat(Texts(spans)) == "张三，梁爽，李四"
  {
    SplitExample(line);
    var parts := SplitInventors(line);
    TrimmedPieces(parts);
    OnlyOwnerMentioned();
    JoinExample(Trimmed(parts));
  }

  /** The trimmed example pieces joined with full-width commas. */
  lemma JoinExample(names: seq<string>)
    requires names == ["张三", "梁爽", "李四"]
    ensures JoinWith(names, "，") == "张三，梁爽，李四"
  {
    assert names[1..] == ["梁爽", "李四"];
    assert names[1..][1..] == ["李四"];
    assert JoinWith(names[1..], "，") == "梁爽" + "，" + "李四";
  }
}
