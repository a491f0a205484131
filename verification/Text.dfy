/**
 Lines and words of text, as Go's strings package takes them apart: Split on newlines,
 TrimRight, ReplaceAll of "\r\n", and Fields.  Strings are sequences of code points;
 lengths in bytes are computed.
 */
module Text {
  import opened Collections

  const NL: char := '\n'
  const CR: char := '\r'

  /** White space as the unicode package defines it. */
  predicate IsSpace(c: char) {
    || c in {'\t', '\n', '\U{0B}', '\U{0C}', '\r', ' ', '\U{85}', '\U{A0}'}
    || c in {'\U{1680}', '\U{2028}', '\U{2029}', '\U{202F}', '\U{205F}', '\U{3000}'}
    || '\U{2000}' <= c <= '\U{200A}'
  }

  /** The length of a string in bytes of UTF-8. */
  function ByteLen(s: string): nat {
    if s == [] then 0 else ByteLen(s[..|s| - 1]) + CharLen(s[|s| - 1])
  }

  function CharLen(c: char): (n: nat)
    ensures 1 <= n <= 4
  {
    if c < '\U{80}' then 1 else if c < '\U{800}' then 2 else if c < '\U{10000}' then 3 else 4
  }

  lemma {:induction false} ByteLenAppend(a: string, b: string)
    ensures ByteLen(a + b) == ByteLen(a) + ByteLen(b)
  {
    if b == [] {
      assert a + b == a;
    } else {
      assert (a + b)[..|a + b| - 1] == a + b[..|b| - 1];
      ByteLenAppend(a, b[..|b| - 1]);
    }
  }

  // Lines

  function Join(parts: seq<string>, sep: char): string {
    if |parts| == 0 then ""
    else if |parts| == 1 then parts[0]
    else Join(parts[..|parts| - 1], sep) + [sep] + parts[|parts| - 1]
  }

  /** The pieces between newlines: always at least one. */
  function Split(s: string): (lines: seq<string>)
    ensures lines != []
  {
    if s == [] then [""]
    else if s[0] == NL then [""] + Split(s[1..])
    else
      var rest := Split(s[1..]);
      [[s[0]] + rest[0]] + rest[1..]
  }

  /** Every line followed by a newline. */
  function Unlines(lines: seq<string>): string {
    if lines == [] then "" else Unlines(lines[..|lines| - 1]) + lines[|lines| - 1] + [NL]
  }

  ghost predicate NoNewlines(lines: seq<string>) {
    forall i :: 0 <= i < |lines| ==> NL !in lines[i]
  }

  lemma {:induction false} SplitNoNewlines(s: string)
    ensures NoNewlines(Split(s))
  {
    if s != [] {
      SplitNoNewlines(s[1..]);
    }
  }

  lemma {:induction false} SplitOne(s: string)
    requires NL !in s
    ensures Split(s) == [s]
  {
    if s != [] {
      assert s == [s[0]] + s[1..];
      SplitOne(s[1..]);
    }
  }

  lemma SplitCons(c: char, s: string)
    ensures Split([c] + s) == if c == NL then [""] + Split(s) else Longer(c, Split(s))
  {
    assert ([c] + s)[1..] == s;
  }

  /** The first line gets longer at the front. */
  function Longer(c: char, lines: seq<string>): seq<string>
    requires lines != []
  {
    [[c] + lines[0]] + lines[1..]
  }

  lemma LongerAppend(c: char, a: seq<string>, b: seq<string>)
    requires a != []
    ensures Longer(c, a + b) == Longer(c, a) + b
  {
    assert (a + b)[1..] == a[1..] + b;
    Assoc([[c] + a[0]], a[1..], b);
  }

  lemma {:induction false} SplitAppend(a: string, b: string)
    ensures Split(a + [NL] + b) == Split(a) + Split(b)
  {
    if a == [] {
      assert a + [NL] == [NL];
      SplitCons(NL, b);
    } else {
      var c, rest := a[0], a[1..];
      assert a == [c] + rest;
      Assoc([c], rest, [NL]);
      Assoc([c], rest + [NL], b);
      SplitAppend(rest, b);
      SplitCons(c, rest + [NL] + b);
      SplitCons(c, rest);
      if c == NL {
        Assoc([""], Split(rest), Split(b));
      } else {
        LongerAppend(c, Split(rest), Split(b));
      }
    }
  }

  lemma UnlinesSnoc(lines: seq<string>, line: string)
    ensures Unlines(lines + [line]) == Unlines(lines) + (line + [NL])
  {
    assert (lines + [line])[..|lines|] == lines;
    Assoc(Unlines(lines), line, [NL]);
  }

  lemma {:induction false} UnlinesAppend(a: seq<string>, b: seq<string>)
    ensures Unlines(a + b) == Unlines(a) + Unlines(b)
  {
    if b == [] {
      assert a + b == a;
    } else {
      var rest, line := b[..|b| - 1], b[|b| - 1];
      assert b == rest + [line];
      Assoc(a, rest, [line]);
      UnlinesAppend(a, rest);
      UnlinesSnoc(a + rest, line);
      UnlinesSnoc(rest, line);
      Assoc(Unlines(a), Unlines(rest), line + [NL]);
    }
  }

  lemma UnlinesCons(line: string, rest: seq<string>)
    ensures Unlines([line] + rest) == line + [NL] + Unlines(rest)
  {
    UnlinesAppend([line], rest);
    UnlinesSnoc([], line);
    assert [] + [line] == [line] && Unlines([]) == "";
  }

  lemma UnlinesLonger(c: char, lines: seq<string>)
    requires lines != []
    ensures Unlines(Longer(c, lines)) == [c] + Unlines(lines)
  {
    var first, rest := lines[0], lines[1..];
    assert lines == [first] + rest;
    UnlinesCons(first, rest);
    UnlinesCons([c] + first, rest);
    Assoc([c], first, [NL]);
    Assoc([c], first + [NL], Unlines(rest));
  }

  lemma {:induction false} UnlinesSplit(s: string)
    ensures Unlines(Split(s)) == s + [NL]
  {
    if s != [] {
      var c, rest := s[0], s[1..];
      assert s == [c] + rest;
      UnlinesSplit(rest);
      SplitCons(c, rest);
      if c == NL {
        UnlinesCons("", Split(rest));
      } else {
        UnlinesLonger(c, Split(rest));
      }
      Assoc([c], rest, [NL]);
    } else {
      assert Unlines([""]) == [NL];
    }
  }

  /** Lines joined by newlines and split again. */
  lemma {:induction false} SplitJoin(lines: seq<string>)
    requires lines != [] && NoNewlines(lines)
    ensures Split(Join(lines, NL)) == lines
  {
    var n := |lines| - 1;
    SplitOne(lines[n]);
    if n > 0 {
      SplitJoin(lines[..n]);
      SplitAppend(Join(lines[..n], NL), lines[n]);
      assert lines == lines[..n] + [lines[n]];
    } else {
      assert lines == [lines[0]];
    }
  }

  lemma {:induction false} UnlinesJoin(lines: seq<string>)
    requires lines != []
    ensures Unlines(lines) == Join(lines, NL) + [NL]
  {
    if |lines| > 1 {
      UnlinesJoin(lines[..|lines| - 1]);
    } else {
      assert lines[..0] == [];
    }
  }

  /** TrimRight(s, "\n"). */
  function TrimRight(s: string): string {
    if s != [] && s[|s| - 1] == NL then TrimRight(s[..|s| - 1]) else s
  }

  /** Trailing empty lines dropped, though one line always remains. */
  function DropBlanks(lines: seq<string>): seq<string> {
    if |lines| > 1 && lines[|lines| - 1] == "" then DropBlanks(lines[..|lines| - 1]) else lines
  }

  lemma {:induction false} TrimJoin(lines: seq<string>)
    requires lines != [] && NoNewlines(lines)
    ensures TrimRight(Join(lines, NL)) == Join(DropBlanks(lines), NL)
    ensures DropBlanks(lines) != [] && NoNewlines(DropBlanks(lines))
  {
    var n := |lines| - 1;
    if n > 0 && lines[n] == "" {
      TrimJoin(lines[..n]);
      var s := Join(lines, NL);
      assert s == Join(lines[..n], NL) + [NL];
      assert s[..|s| - 1] == Join(lines[..n], NL);
    } else if lines[n] != "" {
      var s := Join(lines, NL);
      assert s[|s| - 1] == lines[n][|lines[n]| - 1];
    }
  }

  /** What reading lines back from their text gives. */
  lemma SplitTrimUnlines(lines: seq<string>)
    requires lines != [] && NoNewlines(lines)
    ensures Split(TrimRight(Unlines(lines))) == DropBlanks(lines)
  {
    UnlinesJoin(lines);
    var s := Unlines(lines);
    assert s[..|s| - 1] == Join(lines, NL);
    TrimJoin(lines);
    SplitJoin(DropBlanks(lines));
  }

  lemma BlankLastLine(lines: seq<string>)
    ensures |lines| > 1 && lines[|lines| - 1] == "" ==>
      Join(lines, NL) != [] && Join(lines, NL)[|Join(lines, NL)| - 1] == NL
  {
  }

  lemma {:induction false} SplitTrimmed(s: string)
    ensures var lines := Split(TrimRight(s)); DropBlanks(lines) == lines
    ensures Join(Split(TrimRight(s)), NL) == TrimRight(s)
  {
    var t := TrimRight(s);
    var lines := Split(t);
    UnlinesSplit(t);
    UnlinesJoin(lines);
    assert Join(lines, NL) == Unlines(lines)[..|Unlines(lines)| - 1] == t;
    TrimmedLast(s);
    BlankLastLine(lines);
  }

  lemma {:induction false} TrimmedLast(s: string)
    ensures TrimRight(s) == [] || TrimRight(s)[|TrimRight(s)| - 1] != NL
  {
    if s != [] && s[|s| - 1] == NL {
      TrimmedLast(s[..|s| - 1]);
    }
  }

  // Carriage returns

  /** ReplaceAll(s, "\r\n", "\n"). */
  function Normalize(s: string): string {
    if |s| < 2 then s
    else if s[0] == CR && s[1] == NL then [NL] + Normalize(s[2..])
    else [s[0]] + Normalize(s[1..])
  }

  predicate EndsInCR(line: string) {
    line != [] && line[|line| - 1] == CR
  }

  function StripCR(line: string): string {
    if EndsInCR(line) then line[..|line| - 1] else line
  }

  lemma {:induction false} NormalizeLine(line: string, rest: string)
    requires NL !in line
    ensures Normalize(line + [NL] + rest) == StripCR(line) + [NL] + Normalize(rest)
  {
    var s := line + [NL] + rest;
    if line == [] {
      assert s == [NL] + rest && s[1..] == rest;
    } else if line == [CR] {
      assert s[0] == CR && s[1] == NL && s[2..] == rest;
      assert StripCR(line) == [];
    } else {
      assert s[1..] == line[1..] + [NL] + rest;
      assert s[0] == line[0];
      assert !(s[0] == CR && s[1] == NL) by {
        if |line| > 1 {
          assert s[1] == line[1];
        }
      }
      NormalizeLine(line[1..], rest);
      assert StripCR(line) == [line[0]] + StripCR(line[1..]);
    }
  }

  lemma {:induction false} NormalizeUnlines(lines: seq<string>)
    requires NoNewlines(lines)
    ensures Normalize(Unlines(lines)) == Unlines(Map(lines, StripCR))
  {
    if lines == [] {
      assert Map(lines, StripCR) == [];
    } else {
      var rest := lines[1..];
      calc {
        Normalize(Unlines(lines));
        { assert lines == [lines[0]] + rest; UnlinesCons(lines[0], rest); }
        Normalize(lines[0] + [NL] + Unlines(rest));
        { NormalizeLine(lines[0], Unlines(rest)); }
        StripCR(lines[0]) + [NL] + Normalize(Unlines(rest));
        { NormalizeUnlines(rest); }
        StripCR(lines[0]) + [NL] + Unlines(Map(rest, StripCR));
        { UnlinesCons(StripCR(lines[0]), Map(rest, StripCR)); }
        Unlines([StripCR(lines[0])] + Map(rest, StripCR));
        { assert Map(lines, StripCR) == [StripCR(lines[0])] + Map(rest, StripCR); }
        Unlines(Map(lines, StripCR));
      }
    }
  }

  // Words

  /** How many characters until the first white space. */
  function WordLen(s: string): (n: nat)
    ensures n <= |s|
    ensures forall i :: 0 <= i < n ==> !IsSpace(s[i])
    ensures n < |s| ==> IsSpace(s[n])
  {
    if s == [] || IsSpace(s[0]) then 0 else 1 + WordLen(s[1..])
  }

  /** strings.Fields. */
  function Fields(s: string): (words: seq<string>)
    ensures forall i :: 0 <= i < |words| ==> IsWord(words[i])
    decreases |s|
  {
    if s == [] then []
    else if IsSpace(s[0]) then Fields(s[1..])
    else [s[..WordLen(s)]] + Fields(s[WordLen(s)..])
  }

  predicate IsWord(w: string) {
    w != [] && forall i :: 0 <= i < |w| ==> !IsSpace(w[i])
  }

  lemma WordLenIs(w: string, rest: string)
    requires IsWord(w) && (rest == [] || IsSpace(rest[0]))
    ensures WordLen(w + rest) == |w|
  {
    var n := WordLen(w + rest);
    assert forall i :: 0 <= i < |w| ==> (w + rest)[i] == w[i];
    assert rest != [] ==> (w + rest)[|w|] == rest[0];
  }

  lemma FieldsWord(w: string)
    requires IsWord(w)
    ensures Fields(w) == [w]
  {
    FieldsCons(w, []);
    assert w + [] == w;
  }

  /** A word ends before white space or the end. */
  lemma FieldsCons(w: string, rest: string)
    requires IsWord(w) && (rest == [] || IsSpace(rest[0]))
    ensures Fields(w + rest) == [w] + Fields(rest)
  {
    WordLenIs(w, rest);
    assert (w + rest)[..|w|] == w && (w + rest)[|w|..] == rest;
    assert (w + rest)[0] == w[0];
  }

  lemma {:induction false} FieldsAppend(a: string, sep: char, b: string)
    requires IsSpace(sep)
    ensures Fields(a + [sep] + b) == Fields(a) + Fields(b)
    decreases |a|
  {
    if a == [] {
      assert a + [sep] + b == [sep] + b && ([sep] + b)[1..] == b;
    } else if IsSpace(a[0]) {
      assert (a + [sep] + b)[1..] == a[1..] + [sep] + b;
      FieldsAppend(a[1..], sep, b);
    } else {
      var w, rest := a[..WordLen(a)], a[WordLen(a)..];
      assert a == w + rest;
      Assoc(w, rest, [sep]);
      Assoc(w, rest + [sep], b);
      FieldsAppend(rest, sep, b);
      FieldsCons(w, rest);
      FieldsCons(w, rest + [sep] + b);
      Assoc([w], Fields(rest), Fields(b));
    }
  }

  /** Words joined by white space are read back as those words. */
  lemma {:induction false} FieldsJoin(words: seq<string>, sep: char)
    requires IsSpace(sep) && forall i :: 0 <= i < |words| ==> IsWord(words[i])
    ensures Fields(Join(words, sep)) == words
  {
    if |words| == 1 {
      FieldsWord(words[0]);
    } else if |words| > 1 {
      var n := |words| - 1;
      FieldsJoin(words[..n], sep);
      FieldsWord(words[n]);
      FieldsAppend(Join(words[..n], sep), sep, words[n]);
      assert words == words[..n] + [words[n]];
    }
  }

  /** A text without words consists of white space. */
  lemma {:induction false} NoFieldsIffBlank(s: string)
    ensures Fields(s) == [] <==> forall c :: c in s ==> IsSpace(c)
  {
    if s != [] {
      NoFieldsIffBlank(s[1..]);
      assert s == [s[0]] + s[1..];
    }
  }
}
