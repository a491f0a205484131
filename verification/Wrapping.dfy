/**
 Wrapping and quoting of mail text (wrapLine, wrapText and quote of
 lib/templates/template.go).
 */
module Wrapping {
  import opened Collections
  import opened Text

  /** A line of words. */
  type Line = seq<string>

  /** The bytes a line takes, with one space between words. */
  function LineLen(l: Line): nat {
    if l == [] then 0
    else if |l| == 1 then ByteLen(l[0])
    else LineLen(l[..|l| - 1]) + 1 + ByteLen(l[|l| - 1])
  }

  lemma {:induction false} LineLenIsBytes(l: Line)
    ensures LineLen(l) == ByteLen(Join(l, ' '))
  {
    if |l| > 1 {
      var front, w := Join(l[..|l| - 1], ' '), l[|l| - 1];
      LineLenIsBytes(l[..|l| - 1]);
      ByteLenAppend(front + [' '], w);
      ByteLenAppend(front, [' ']);
      assert ByteLen([' ']) == ByteLen([]) + 1;
    }
  }

  /** What the greedy loop has built after the given words. */
  function Wrap(words: seq<string>, width: int): (lines: seq<Line>)
    requires words != []
    ensures lines != [] && lines[|lines| - 1] != []
  {
    var n := |words| - 1;
    if n == 0 then [words]
    else
      var lines := Wrap(words[..n], width);
      var k := |lines| - 1;
      if ByteLen(words[n]) + 1 > width - LineLen(lines[k])
      then lines + [[words[n]]]
      else lines[..k] + [lines[k] + [words[n]]]
  }

  function RenderLine(l: Line): string {
    Join(l, ' ')
  }

  function Render(lines: seq<Line>): string {
    Join(Map(lines, RenderLine), NL)
  }

  function WrapLineText(text: string, width: int): string {
    if Fields(text) == [] then text else Render(Wrap(Fields(text), width))
  }

  /** The bytes taken by the line being filled. */
  function LastLen(words: seq<string>, width: int): nat
    requires words != []
  {
    var lines := Wrap(words, width);
    LineLen(lines[|lines| - 1])
  }

  lemma WrapStep(words: seq<string>, w: string, width: int)
    requires words != []
    ensures var before, after := Render(Wrap(words, width)), Render(Wrap(words + [w], width));
      if ByteLen(w) + 1 > width - LastLen(words, width)
      then after == before + [NL] + w && LastLen(words + [w], width) == ByteLen(w)
      else after == before + [' '] + w && LastLen(words + [w], width) == LastLen(words, width) + 1 + ByteLen(w)
  {
    var lines := Wrap(words, width);
    var k := |lines| - 1;
    assert (words + [w])[..|words|] == words;
    if ByteLen(w) + 1 > width - LineLen(lines[k]) {
      RenderNewLine(lines, w);
    } else {
      RenderLonger(lines, w);
      assert (lines[k] + [w])[..|lines[k]|] == lines[k];
    }
  }

  lemma WrapFirst(words: seq<string>, width: int)
    requires words != []
    ensures Render(Wrap(words[..1], width)) == words[0] && LastLen(words[..1], width) == ByteLen(words[0])
  {
    assert words[..1] == [words[0]];
    assert Map([[words[0]]], RenderLine) == [words[0]];
  }

  /** The step of the loop. */
  lemma WrapNext(words: seq<string>, i: nat, width: int)
    requires 0 < i < |words|
    ensures var before, after := Render(Wrap(words[..i], width)), Render(Wrap(words[..i + 1], width));
      if ByteLen(words[i]) + 1 > width - LastLen(words[..i], width)
      then after == before + [NL] + words[i] && LastLen(words[..i + 1], width) == ByteLen(words[i])
      else && after == before + [' '] + words[i]
           && LastLen(words[..i + 1], width) == LastLen(words[..i], width) + 1 + ByteLen(words[i])
  {
    assert words[..i + 1] == words[..i] + [words[i]];
    WrapStep(words[..i], words[i], width);
  }

  method WrapLine(text: string, lineWidth: int) returns (r: string)
    ensures r == WrapLineText(text, lineWidth)
  {
    var words := Fields(text);
    if |words| == 0 {
      return text;
    }
    var wrapped := words[0];
    var spaceLeft := lineWidth - ByteLen(wrapped);
    WrapFirst(words, lineWidth);
    for i := 1 to |words|
      invariant wrapped == Render(Wrap(words[..i], lineWidth))
      invariant spaceLeft == lineWidth - LastLen(words[..i], lineWidth)
    {
      WrapNext(words, i, lineWidth);
      if ByteLen(words[i]) + 1 > spaceLeft {
        wrapped := wrapped + [NL] + words[i];
        spaceLeft := lineWidth - ByteLen(words[i]);
      } else {
        wrapped := wrapped + [' '] + words[i];
        spaceLeft := spaceLeft - (1 + ByteLen(words[i]));
      }
    }
    assert words[..|words|] == words;
    return wrapped;
  }

  lemma RenderNewLine(lines: seq<Line>, w: string)
    requires lines != []
    ensures Render(lines + [[w]]) == Render(lines) + [NL] + w
  {
    var m := Map(lines + [[w]], RenderLine);
    assert m[..|m| - 1] == Map(lines, RenderLine);
  }

  lemma RenderLonger(lines: seq<Line>, w: string)
    requires lines != [] && lines[|lines| - 1] != []
    ensures var k := |lines| - 1;
      Render(lines[..k] + [lines[k] + [w]]) == Render(lines) + [' '] + w
  {
    var k := |lines| - 1;
    var longer := lines[..k] + [lines[k] + [w]];
    assert (lines[k] + [w])[..|lines[k]|] == lines[k];
    assert RenderLine(lines[k] + [w]) == RenderLine(lines[k]) + [' '] + w;
    assert Map(longer, RenderLine)[..k] == Map(lines, RenderLine)[..k];
  }

  // Greedy wrapping is optimal

  function Flatten(lines: seq<Line>): seq<string> {
    if lines == [] then [] else Flatten(lines[..|lines| - 1]) + lines[|lines| - 1]
  }

  /** A line may be as wide as the width, or wider if it is a single word. */
  predicate Fits(l: Line, width: int) {
    l != [] && (|l| == 1 || LineLen(l) <= width)
  }

  /** A way of breaking words into lines. */
  ghost predicate Breaking(words: seq<string>, lines: seq<Line>, width: int) {
    Flatten(lines) == words && forall i :: 0 <= i < |lines| ==> Fits(lines[i], width)
  }

  lemma FlattenSnoc(lines: seq<Line>, l: Line)
    ensures Flatten(lines + [l]) == Flatten(lines) + l
  {
    assert (lines + [l])[..|lines|] == lines;
  }

  lemma FlattenLonger(lines: seq<Line>, w: string)
    requires lines != []
    ensures var k := |lines| - 1;
      Flatten(lines[..k] + [lines[k] + [w]]) == Flatten(lines) + [w]
  {
    var k := |lines| - 1;
    FlattenSnoc(lines[..k], lines[k] + [w]);
    Assoc(Flatten(lines[..k]), lines[k], [w]);
  }

  lemma FlattenWrapStep(words: seq<string>, w: string, width: int)
    requires words != []
    ensures Flatten(Wrap(words + [w], width)) == Flatten(Wrap(words, width)) + [w]
  {
    assert (words + [w])[..|words|] == words;
    FlattenSnoc(Wrap(words, width), [w]);
    FlattenLonger(Wrap(words, width), w);
  }

  lemma {:induction false} WrapFlattens(words: seq<string>, width: int)
    requires words != []
    ensures Flatten(Wrap(words, width)) == words
  {
    if |words| == 1 {
      FlattenSnoc([], words);
      assert [] + [words] == [words];
    } else {
      var front, last := words[..|words| - 1], words[|words| - 1];
      assert words == front + [last];
      WrapFlattens(front, width);
      FlattenWrapStep(front, last, width);
    }
  }

  lemma {:induction false} WrapFits(words: seq<string>, width: int)
    requires words != []
    ensures forall l :: l in Wrap(words, width) ==> Fits(l, width)
  {
    var n := |words| - 1;
    if n > 0 {
      WrapFits(words[..n], width);
      var lines := Wrap(words[..n], width);
      var last := lines[|lines| - 1];
      assert (last + [words[n]])[..|last|] == last;
    }
  }

  lemma WrapBreaks(words: seq<string>, width: int)
    requires words != []
    ensures Breaking(words, Wrap(words, width), width)
  {
    WrapFlattens(words, width);
    WrapFits(words, width);
  }

  /** Fewer lines, or as many and a last line no longer. */
  ghost predicate Ahead(a: seq<Line>, b: seq<Line>) {
    a != [] && b != [] && (|a| < |b| || (|a| == |b| && LineLen(a[|a| - 1]) <= LineLen(b[|b| - 1])))
  }

  /** Taking the last word off a breaking: it either stood alone or ended the last line. */
  lemma LastWord(words: seq<string>, b: seq<Line>, width: int)
    requires |words| > 1 && Breaking(words, b, width)
    ensures b != []
    ensures var n, k := |words| - 1, |b| - 1;
      var l := b[k];
      && l != [] && l[|l| - 1] == words[n]
      && (|l| == 1 ==> Breaking(words[..n], b[..k], width))
      && (|l| > 1 ==> Breaking(words[..n], b[..k] + [l[..|l| - 1]], width))
      && (|l| > 1 ==> LineLen(l) == LineLen(l[..|l| - 1]) + 1 + ByteLen(words[n]))
  {
    var n, k := |words| - 1, |b| - 1;
    var l := b[k];
    assert Fits(l, width);
    assert words == Flatten(b[..k]) + l;
    var shorter := b[..k] + [l[..|l| - 1]];
    assert shorter[..k] == b[..k];
    assert Flatten(shorter) == Flatten(b[..k]) + l[..|l| - 1] == words[..n];
    assert |l| == 1 ==> Flatten(b[..k]) == words[..n];
  }

  lemma {:induction false} GreedyStaysAhead(words: seq<string>, b: seq<Line>, width: int)
    requires words != [] && Breaking(words, b, width)
    ensures Ahead(Wrap(words, width), b)
  {
    var n := |words| - 1;
    if n == 0 {
      var k := |b| - 1;
      assert b != [] && Fits(b[k], width) && words == Flatten(b[..k]) + b[k];
      assert b[k] == words;
    } else {
      LastWord(words, b, width);
      var k := |b| - 1;
      var l := b[k];
      GreedyStaysAhead(words[..n], if |l| == 1 then b[..k] else b[..k] + [l[..|l| - 1]], width);
    }
  }

  /**
   wrapLine is optimal.  For every width, zero and negative ones included, its lines
   hold the words in order, each fits or is one word, and no other breaking of those
   words under that rule has fewer lines.
   */
  lemma WrapOptimal(words: seq<string>, b: seq<Line>, width: int)
    requires words != [] && Breaking(words, b, width)
    ensures Breaking(words, Wrap(words, width), width)
    ensures |Wrap(words, width)| <= |b|
  {
    WrapBreaks(words, width);
    GreedyStaysAhead(words, b, width);
  }

  lemma {:induction false} FlattenMember(lines: seq<Line>, i: nat, j: nat)
    requires i < |lines| && j < |lines[i]|
    ensures lines[i][j] in Flatten(lines)
  {
    if i < |lines| - 1 {
      FlattenMember(lines[..|lines| - 1], i, j);
    }
  }

  lemma {:induction false} FieldsRender(lines: seq<Line>)
    requires forall i, j :: 0 <= i < |lines| && 0 <= j < |lines[i]| ==> IsWord(lines[i][j])
    ensures Fields(Render(lines)) == Flatten(lines)
  {
    var m := Map(lines, RenderLine);
    if lines != [] {
      var k := |lines| - 1;
      FieldsRender(lines[..k]);
      FieldsJoin(lines[k], ' ');
      assert m[..k] == Map(lines[..k], RenderLine);
      if k > 0 {
        FieldsAppend(Join(m[..k], NL), NL, m[k]);
      } else {
        assert Flatten(lines[..0]) == [];
      }
    }
  }

  /** On the text itself: wrapping keeps the words and their order. */
  lemma WrapKeepsWords(text: string, width: int)
    ensures Fields(WrapLineText(text, width)) == Fields(text)
  {
    if Fields(text) != [] {
      WrapBreaks(Fields(text), width);
      var lines := Wrap(Fields(text), width);
      forall i, j | 0 <= i < |lines| && 0 <= j < |lines[i]| ensures IsWord(lines[i][j]) {
        FlattenMember(lines, i, j);
      }
      FieldsRender(lines);
    }
  }

  // Whole texts

  function ProcessLine(line: string, width: int): string {
    if line == "" then ""
    else if line[0] == '>' then line
    else WrapLineText(line, width)
  }

  /** The lines both functions work on. */
  function LinesOf(text: string): seq<string> {
    Split(TrimRight(Normalize(text)))
  }

  function Processed(lines: seq<string>, width: int): seq<string> {
    if lines == [] then [] else Processed(lines[..|lines| - 1], width) + [ProcessLine(lines[|lines| - 1], width)]
  }

  function WrapTextOf(text: string, width: int): string {
    Unlines(Processed(LinesOf(text), width))
  }

  lemma ProcessedUpTo(lines: seq<string>, i: nat, width: int)
    requires i < |lines|
    ensures Unlines(Processed(lines[..i + 1], width)) == Unlines(Processed(lines[..i], width)) + ProcessLine(lines[i], width) + [NL]
  {
    assert lines[..i + 1][..i] == lines[..i];
    var before, piece := Processed(lines[..i], width), ProcessLine(lines[i], width);
    UnlinesSnoc(before, piece);
    Assoc(Unlines(before), piece, [NL]);
  }

  method WrapText(text: string, lineWidth: int) returns (r: string)
    ensures r == WrapTextOf(text, lineWidth)
  {
    var lines := LinesOf(text);
    r := "";
    for i := 0 to |lines|
      invariant r == Unlines(Processed(lines[..i], lineWidth))
    {
      var line := lines[i];
      ghost var piece := ProcessLine(line, lineWidth);
      ProcessedUpTo(lines, i, lineWidth);
      if line == "" {
        assert r + piece == r;
      } else if line[0] == '>' {
        r := r + line;
      } else {
        var wrapped := WrapLine(line, lineWidth);
        r := r + wrapped;
      }
      assert r == Unlines(Processed(lines[..i], lineWidth)) + piece;
      r := r + [NL];
    }
    assert lines[..|lines|] == lines;
  }

  function QuoteLine(line: string): string {
    if line == "" then ">" else "> " + line
  }

  function QuoteOf(text: string): string {
    Unlines(Map(LinesOf(text), QuoteLine))
  }

  lemma QuotedUpTo(lines: seq<string>, i: nat)
    requires i < |lines|
    ensures Unlines(Map(lines[..i + 1], QuoteLine)) == Unlines(Map(lines[..i], QuoteLine)) + (QuoteLine(lines[i]) + [NL])
  {
    assert lines[..i + 1] == lines[..i] + [lines[i]];
    MapAppend(lines[..i], [lines[i]], QuoteLine);
    assert Map([lines[i]], QuoteLine) == [QuoteLine(lines[i])];
    UnlinesSnoc(Map(lines[..i], QuoteLine), QuoteLine(lines[i]));
  }

  lemma Appended(before: string, marker: string, line: string)
    ensures before + marker + line + [NL] == before + (marker + line + [NL])
  {
  }

  method Quote(text: string) returns (quoted: string)
    ensures quoted == QuoteOf(text)
  {
    var lines := LinesOf(text);
    quoted := "";
    for i := 0 to |lines|
      invariant quoted == Unlines(Map(lines[..i], QuoteLine))
    {
      var line := lines[i];
      ghost var before := quoted;
      QuotedUpTo(lines, i);
      if line == "" {
        quoted := quoted + ">\n";
        assert ">\n" == QuoteLine(line) + [NL];
        continue;
      }
      quoted := quoted + "> ";
      quoted := quoted + line;
      quoted := quoted + [NL];
      Appended(before, "> ", line);
    }
    assert lines[..|lines|] == lines;
  }

  // Wrapping what has been wrapped or quoted

  /** A line that wrapping leaves as it is. */
  ghost predicate Fixed(line: string, width: int) {
    NL !in line && ProcessLine(line, width) == line
  }

  ghost predicate AllFixed(lines: seq<string>, width: int) {
    forall i :: 0 <= i < |lines| ==> Fixed(lines[i], width)
  }

  ghost predicate NoneEndsInCR(lines: seq<string>) {
    forall i :: 0 <= i < |lines| ==> !EndsInCR(lines[i])
  }

  lemma {:induction false} ProcessedFixed(lines: seq<string>, width: int)
    requires forall i :: 0 <= i < |lines| ==> ProcessLine(lines[i], width) == lines[i]
    ensures Processed(lines, width) == lines
  {
    if lines != [] {
      var front, last := lines[..|lines| - 1], lines[|lines| - 1];
      assert lines == front + [last];
      forall i | 0 <= i < |front| ensures ProcessLine(front[i], width) == front[i] {
        assert front[i] == lines[i];
      }
      ProcessedFixed(front, width);
    }
  }

  /** A fitting line of words is wrapped to itself. */
  lemma {:induction false} WrapFitting(l: Line, width: int)
    requires Fits(l, width)
    ensures Wrap(l, width) == [l]
  {
    var n := |l| - 1;
    if n > 0 {
      var front := l[..n];
      WrapFitting(front, width);
      assert l == front + [l[n]];
      assert [front][..0] + [front + [l[n]]] == [front + [l[n]]];
    }
  }

  lemma {:induction false} JoinEnds(words: seq<string>, sep: char)
    requires words != [] && IsWord(words[|words| - 1])
    ensures Join(words, sep) != []
    ensures !IsSpace(Join(words, sep)[|Join(words, sep)| - 1])
  {
  }

  lemma {:induction false} NoNewlineInLine(l: Line)
    requires forall j :: 0 <= j < |l| ==> IsWord(l[j])
    ensures NL !in RenderLine(l)
  {
    if |l| > 1 {
      NoNewlineInLine(l[..|l| - 1]);
    }
    if l != [] {
      assert NL !in l[|l| - 1];
    }
  }

  /** A rendered line of the wrapping is fixed and does not end in white space. */
  lemma RenderedFixed(l: Line, width: int)
    requires Fits(l, width) && forall j :: 0 <= j < |l| ==> IsWord(l[j])
    ensures Fixed(RenderLine(l), width) && RenderLine(l) != "" && !EndsInCR(RenderLine(l))
  {
    FieldsJoin(l, ' ');
    WrapFitting(l, width);
    JoinEnds(l, ' ');
    NoNewlineInLine(l);
    assert Map([l], RenderLine) == [RenderLine(l)];
  }

  /** The lines one line turns into. */
  function Pieces(line: string, width: int): seq<string> {
    Split(ProcessLine(line, width))
  }

  predicate KeptWhole(line: string) {
    line == "" || line[0] == '>' || Fields(line) == []
  }

  lemma PiecesFixed(line: string, width: int)
    requires NL !in line
    ensures AllFixed(Pieces(line, width), width)
    ensures KeptWhole(line) ==> Pieces(line, width) == [line]
    ensures NoneEndsInCR(Pieces(line, width)) <==> (KeptWhole(line) ==> !EndsInCR(line))
    ensures line != "" ==> Pieces(line, width)[|Pieces(line, width)| - 1] != ""
  {
    if KeptWhole(line) {
      SplitOne(line);
      assert [line][0] == line;
    } else {
      var words := Fields(line);
      var lines := Wrap(words, width);
      var m := Map(lines, RenderLine);
      WrapBreaks(words, width);
      forall i | 0 <= i < |m| ensures Fixed(m[i], width) && m[i] != "" && !EndsInCR(m[i]) {
        forall j | 0 <= j < |lines[i]| ensures IsWord(lines[i][j]) {
          FlattenMember(lines, i, j);
        }
        RenderedFixed(lines[i], width);
      }
      SplitJoin(m);
    }
  }

  function FlatMap(lines: seq<string>, f: string -> seq<string>): seq<string> {
    if lines == [] then [] else FlatMap(lines[..|lines| - 1], f) + f(lines[|lines| - 1])
  }

  lemma {:induction false} FlatMapMember(lines: seq<string>, f: string -> seq<string>, x: string)
    ensures x in FlatMap(lines, f) <==> exists i :: 0 <= i < |lines| && x in f(lines[i])
  {
    if lines != [] {
      FlatMapMember(lines[..|lines| - 1], f, x);
    }
  }

  function PiecesAt(width: int): string -> seq<string> {
    (line: string) => Pieces(line, width)
  }

  function AllPieces(lines: seq<string>, width: int): seq<string> {
    FlatMap(lines, PiecesAt(width))
  }

  lemma {:induction false} UnlinesPieces(lines: seq<string>, width: int)
    ensures Unlines(Processed(lines, width)) == Unlines(AllPieces(lines, width))
  {
    if lines != [] {
      var front, last := lines[..|lines| - 1], lines[|lines| - 1];
      UnlinesPieces(front, width);
      UnlinesAppend(AllPieces(front, width), Pieces(last, width));
      UnlinesSplit(ProcessLine(last, width));
      UnlinesSnoc(Processed(front, width), ProcessLine(last, width));
    }
  }

  /** No line kept whole ends in a carriage return. */
  ghost predicate WholeLinesClean(lines: seq<string>) {
    forall i :: 0 <= i < |lines| && KeptWhole(lines[i]) ==> !EndsInCR(lines[i])
  }

  /** Each piece is one of a line's. */
  lemma PieceOfLine(lines: seq<string>, width: int, k: nat) returns (i: nat, j: nat)
    requires k < |AllPieces(lines, width)|
    ensures i < |lines| && j < |Pieces(lines[i], width)|
    ensures Pieces(lines[i], width)[j] == AllPieces(lines, width)[k]
  {
    var x := AllPieces(lines, width)[k];
    FlatMapMember(lines, PiecesAt(width), x);
    i :| 0 <= i < |lines| && x in PiecesAt(width)(lines[i]);
    j :| 0 <= j < |Pieces(lines[i], width)| && Pieces(lines[i], width)[j] == x;
  }

  lemma AllPiecesFixed(lines: seq<string>, width: int)
    requires NoNewlines(lines)
    ensures AllFixed(AllPieces(lines, width), width)
    ensures WholeLinesClean(lines) ==> NoneEndsInCR(AllPieces(lines, width))
  {
    forall k | 0 <= k < |AllPieces(lines, width)|
      ensures Fixed(AllPieces(lines, width)[k], width)
      ensures WholeLinesClean(lines) ==> !EndsInCR(AllPieces(lines, width)[k])
    {
      var i, j := PieceOfLine(lines, width, k);
      PiecesFixed(lines[i], width);
    }
  }

  lemma UncleanPiece(lines: seq<string>, width: int)
    requires NoNewlines(lines) && !WholeLinesClean(lines)
    ensures !NoneEndsInCR(AllPieces(lines, width))
  {
    var i :| 0 <= i < |lines| && KeptWhole(lines[i]) && EndsInCR(lines[i]);
    PiecesFixed(lines[i], width);
    assert lines[i] in PiecesAt(width)(lines[i]);
    FlatMapMember(lines, PiecesAt(width), lines[i]);
    var k :| 0 <= k < |AllPieces(lines, width)| && AllPieces(lines, width)[k] == lines[i];
  }

  /** A line is kept, or its words are broken into as few lines as the width allows. */
  lemma PiecesFit(line: string, width: int)
    requires NL !in line && !KeptWhole(line)
    ensures forall x :: x in Pieces(line, width) ==> ByteLen(x) <= width || IsWord(x)
    ensures forall b :: Breaking(Fields(line), b, width) ==> |Pieces(line, width)| <= |b|
  {
    var words := Fields(line);
    var lines := Wrap(words, width);
    var m := Map(lines, RenderLine);
    WrapBreaks(words, width);
    forall i | 0 <= i < |m| ensures NL !in m[i] && (ByteLen(m[i]) <= width || IsWord(m[i])) {
      forall j | 0 <= j < |lines[i]| ensures IsWord(lines[i][j]) {
        FlattenMember(lines, i, j);
      }
      NoNewlineInLine(lines[i]);
      LineLenIsBytes(lines[i]);
      assert Fits(lines[i], width);
    }
    SplitJoin(m);
    forall b | Breaking(words, b, width) ensures |m| <= |b| {
      WrapOptimal(words, b, width);
    }
  }

  lemma SplitUnlines(lines: seq<string>)
    requires lines != [] && NoNewlines(lines)
    ensures Split(Unlines(lines)) == lines + [""]
  {
    UnlinesJoin(lines);
    SplitJoin(lines);
    SplitAppend(Join(lines, NL), "");
    assert Join(lines, NL) + [NL] + "" == Unlines(lines);
  }

  /**
   On the whole text: every line of the result is a line kept whole, fits the width or is
   one word; and after the last line end there is nothing.
   */
  lemma WrappedTextFits(text: string, width: int)
    ensures var lines := Split(WrapTextOf(text, width));
      && lines[|lines| - 1] == ""
      && forall k :: 0 <= k < |lines| - 1 ==>
           (lines[k] in LinesOf(text) && KeptWhole(lines[k])) || ByteLen(lines[k]) <= width || IsWord(lines[k])
  {
    var lines := LinesOf(text);
    var pieces := AllPieces(lines, width);
    LinesOfGood(text);
    UnlinesPieces(lines, width);
    AllPiecesFixed(lines, width);
    LastPiece(lines, width);
    SplitUnlines(pieces);
    forall k | 0 <= k < |pieces|
      ensures (pieces[k] in lines && KeptWhole(pieces[k])) || ByteLen(pieces[k]) <= width || IsWord(pieces[k])
    {
      var i, j := PieceOfLine(lines, width, k);
      if KeptWhole(lines[i]) {
        PiecesFixed(lines[i], width);
      } else {
        PiecesFit(lines[i], width);
      }
    }
  }

  /** Stripping a carriage return leaves a fixed line fixed. */
  lemma StripFixed(line: string, width: int)
    requires Fixed(line, width)
    ensures Fixed(StripCR(line), width)
  {
    if EndsInCR(line) && line[0] != '>' {
      PiecesFixed(line, width);
      SplitOne(line);
      assert KeptWhole(line);
      NoFieldsIffBlank(line);
      NoFieldsIffBlank(StripCR(line));
    }
  }

  lemma {:induction false} StrippedShorter(lines: seq<string>)
    ensures |Unlines(Map(lines, StripCR))| <= |Unlines(lines)|
    ensures |Unlines(Map(lines, StripCR))| == |Unlines(lines)| <==> NoneEndsInCR(lines)
  {
    if lines != [] {
      var n := |lines| - 1;
      StrippedShorter(lines[..n]);
      assert Map(lines, StripCR)[..n] == Map(lines[..n], StripCR);
      assert NoneEndsInCR(lines) <==> NoneEndsInCR(lines[..n]) && !EndsInCR(lines[n]);
    }
  }

  lemma {:induction false} DroppedShorter(lines: seq<string>)
    ensures |Unlines(DropBlanks(lines))| <= |Unlines(lines)|
    ensures DropBlanks(lines) <= lines
  {
    if |lines| > 1 && lines[|lines| - 1] == "" {
      DroppedShorter(lines[..|lines| - 1]);
    }
  }

  /**
   Wrapping a text made of fixed lines, with no blank line at the end, gives it back
   exactly when no line ends in a carriage return.
   */
  lemma WrapFixedIff(lines: seq<string>, width: int)
    requires lines != [] && AllFixed(lines, width) && DropBlanks(lines) == lines
    ensures WrapTextOf(Unlines(lines), width) == Unlines(lines) <==> NoneEndsInCR(lines)
  {
    var stripped := Map(lines, StripCR);
    forall i | 0 <= i < |stripped| ensures Fixed(stripped[i], width) {
      StripFixed(lines[i], width);
    }
    NormalizeUnlines(lines);
    SplitTrimUnlines(stripped);
    DroppedShorter(stripped);
    ProcessedFixed(DropBlanks(stripped), width);
    assert WrapTextOf(Unlines(lines), width) == Unlines(DropBlanks(stripped));
    StrippedShorter(lines);
    if NoneEndsInCR(lines) {
      assert stripped == lines;
    }
  }

  lemma LinesOfGood(text: string)
    ensures NoNewlines(LinesOf(text)) && DropBlanks(LinesOf(text)) == LinesOf(text)
  {
    SplitNoNewlines(TrimRight(Normalize(text)));
    SplitTrimmed(Normalize(text));
  }

  lemma LastPiece(lines: seq<string>, width: int)
    requires lines != [] && NoNewlines(lines) && DropBlanks(lines) == lines
    ensures AllPieces(lines, width) != [] && DropBlanks(AllPieces(lines, width)) == AllPieces(lines, width)
  {
    var front, last := lines[..|lines| - 1], lines[|lines| - 1];
    PiecesFixed(last, width);
    assert AllPieces(lines, width) == AllPieces(front, width) + Pieces(last, width);
    if last == "" {
      DroppedShorter(front);
      assert front == [];
      assert AllPieces(front, width) == [];
      assert AllPieces(lines, width) == Pieces(last, width) == [""];
    } else {
      EndsNonBlank(AllPieces(front, width), Pieces(last, width));
    }
  }

  lemma EndsNonBlank(a: seq<string>, b: seq<string>)
    requires b != [] && b[|b| - 1] != ""
    ensures DropBlanks(a + b) == a + b
  {
  }

  /**
   wrapText is idempotent at a fixed width exactly when no line that it keeps whole,
   quoted or blank, ends in a carriage return.
   */
  lemma WrapIdempotentIff(text: string, width: int)
    ensures WrapTextOf(WrapTextOf(text, width), width) == WrapTextOf(text, width) <==>
      WholeLinesClean(LinesOf(text))
  {
    var lines := LinesOf(text);
    LinesOfGood(text);
    UnlinesPieces(lines, width);
    AllPiecesFixed(lines, width);
    if !WholeLinesClean(lines) {
      UncleanPiece(lines, width);
    }
    LastPiece(lines, width);
    WrapFixedIff(AllPieces(lines, width), width);
  }

  lemma QuotedLines(lines: seq<string>, width: int)
    requires lines != [] && NoNewlines(lines)
    ensures var quoted := Map(lines, QuoteLine);
      AllFixed(quoted, width) && DropBlanks(quoted) == quoted && (NoneEndsInCR(quoted) <==> NoneEndsInCR(lines))
  {
    var quoted := Map(lines, QuoteLine);
    forall i | 0 <= i < |lines|
      ensures Fixed(quoted[i], width) && quoted[i] != "" && (EndsInCR(quoted[i]) <==> EndsInCR(lines[i]))
    {
    }
  }

  /**
   wrapText leaves quoted text alone, at every width, exactly when no line of the text
   that was quoted ends in a carriage return.
   */
  lemma WrapLeavesQuotedIff(text: string, width: int)
    ensures WrapTextOf(QuoteOf(text), width) == QuoteOf(text) <==> NoneEndsInCR(LinesOf(text))
  {
    LinesOfGood(text);
    QuotedLines(LinesOf(text), width);
    WrapFixedIff(Map(LinesOf(text), QuoteLine), width);
  }

  lemma {:induction false} NormalizeNoCR(s: string)
    requires CR !in s
    ensures Normalize(s) == s
  {
    if |s| >= 2 {
      NormalizeNoCR(s[1..]);
      assert s == [s[0]] + s[1..];
    }
  }

  lemma {:induction false} SplitMembers(s: string, i: nat)
    requires i < |Split(s)| && CR !in s
    ensures CR !in Split(s)[i]
  {
    if s != [] {
      if s[0] == NL {
        if i > 0 { SplitMembers(s[1..], i - 1); }
      } else {
        SplitMembers(s[1..], i);
      }
    }
  }

  lemma {:induction false} TrimPrefixOf(s: string)
    ensures TrimRight(s) <= s
  {
    if s != [] && s[|s| - 1] == NL {
      TrimPrefixOf(s[..|s| - 1]);
    }
  }

  /** In particular both laws hold of every text without carriage returns. */
  lemma WithoutCarriageReturns(text: string, width: int)
    requires CR !in text
    ensures WrapTextOf(WrapTextOf(text, width), width) == WrapTextOf(text, width)
    ensures WrapTextOf(QuoteOf(text), width) == QuoteOf(text)
  {
    NormalizeNoCR(text);
    TrimPrefixOf(text);
    var lines := LinesOf(text);
    forall i | 0 <= i < |lines| ensures !EndsInCR(lines[i]) {
      SplitMembers(TrimRight(text), i);
    }
    WrapIdempotentIff(text, width);
    WrapLeavesQuotedIff(text, width);
  }

  function UnquoteLine(line: string): string {
    if "> " <= line then line[2..] else if ">" <= line then line[1..] else line
  }

  function Unquote(text: string): string {
    Join(Map(Split(TrimRight(text)), UnquoteLine), NL)
  }

  /** Taking the marker off every line undoes quote, up to line ends and trailing newlines. */
  lemma UnquoteUndoesQuote(text: string)
    ensures Unquote(QuoteOf(text)) == TrimRight(Normalize(text))
  {
    var lines := LinesOf(text);
    var quoted := Map(lines, QuoteLine);
    LinesOfGood(text);
    QuotedLines(lines, 0);
    SplitTrimUnlines(quoted);
    UnquoteLines(lines);
    SplitTrimmed(Normalize(text));
  }

  lemma UnquoteLines(lines: seq<string>)
    ensures Map(Map(lines, QuoteLine), UnquoteLine) == lines
  {
    forall i | 0 <= i < |lines| ensures UnquoteLine(QuoteLine(lines[i])) == lines[i] {
      if lines[i] != "" {
        assert ("> " + lines[i])[2..] == lines[i];
      }
    }
  }

  /** Instances: a quoted line, and a line to be quoted, that end in a carriage return. */
  lemma CarriageReturnsMatter(width: int)
    ensures WrapTextOf(WrapTextOf(">\r", width), width) != WrapTextOf(">\r", width)
    ensures WrapTextOf(QuoteOf("\r"), width) != QuoteOf("\r")
  {
    assert LinesOf(">\r") == [">\r"] by {
      SplitOne(">\r");
      NoNewlineAtEnd(">\r");
    }
    assert LinesOf("\r") == ["\r"] by {
      SplitOne("\r");
      NoNewlineAtEnd("\r");
    }
    WrapIdempotentIff(">\r", width);
    WrapLeavesQuotedIff("\r", width);
  }

  lemma NoNewlineAtEnd(s: string)
    requires 0 < |s| <= 2 && NL !in s
    ensures TrimRight(Normalize(s)) == s
  {
    if |s| == 2 {
      assert s == [s[0]] + s[1..];
      assert Normalize(s[1..]) == s[1..];
    }
  }
}
