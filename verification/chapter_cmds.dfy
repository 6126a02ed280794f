/**
 The fixed text of the patch applied to the generated LaTeX class file
 `manual.cls`: the block of macros that makes chapters start on the current
 page, the marker that anchors its insertion, and the sentinel that shows
 the block is already present.
 */
module ChapterCmds {
  import opened Lines

  /* The insertion anchor: the block goes in front of the line holding this text. */
  const Marker: string := "Support for module synopsis"

  /* Present in a class file that already holds the block (the block defines `\@makechapterhead`). */
  const Sentinel: string := "makechapterhead"

  /* The block's lines as they stand in the source, each without its newline, in
     the four parts the block is made of. The two longest lines are written in
     several pieces. */

  /* The block opens with an empty line and a comment. */
  const Preamble: seq<string> := [
    "",
    @"% Local changes."
  ]

  const RenewChapter: seq<string> := [
    @"\renewcommand\chapter{",
    @"    \thispagestyle{plain}",
    @"    \global\@topnum\z@",
    @"    \@afterindentfalse",
    @"    \secdef\@chapter\@schapter",
    @"}"
  ]

  /* The line that sets a numbered chapter's title, in four pieces. */
  const ChapterTitleLine: string :=
    @"    {\raggedright " + @"\reset@font \Huge " + @"\bfseries \thechapter " + @"\quad #1}"

  /* The line that sets an unnumbered chapter's title, in three pieces. */
  const SChapterTitleLine: string :=
    @"    {\raggedright " + @"\reset@font \Huge " + @"\bfseries #1}"

  const MakeChapterHead: seq<string> := [
    @"\def\@makechapterhead#1{",
    @"    \vspace*{10\p@}",
    ChapterTitleLine,
    @"    \par\nobreak",
    @"    \hrulefill",
    @"    \par\nobreak",
    @"    \vspace*{10\p@}",
    @"}"
  ]

  const MakeSChapterHead: seq<string> := [
    @"\def\@makeschapterhead#1{",
    @"    \vspace*{10\p@}",
    SChapterTitleLine,
    @"    \par\nobreak",
    @"    \hrulefill",
    @"    \par\nobreak",
    @"    \vspace*{10\p@}",
    @"}"
  ]

  const BlockText: seq<string> := Preamble + RenewChapter + MakeChapterHead + MakeSChapterHead

  /* The block's lines, each with its newline. */
  const BlockLines: seq<string> := WithNewlines(BlockText)

  /* Each text followed by a newline. */
  function WithNewlines(ts: seq<string>): (ls: seq<string>)
    ensures |ls| == |ts|
    ensures forall i :: 0 <= i < |ts| ==> ls[i] == ts[i] + "\n"
  {
    if ts == [] then [] else [ts[0] + "\n"] + WithNewlines(ts[1..])
  }

  /* The macro block, character for character: it opens and closes with a newline. */
  const Block: string := Join(BlockLines)

  /* The block's line that defines `\@makechapterhead`. */
  const SentinelLine: string := MakeChapterHead[0] + "\n"

  /* A line that turns the patch off: it holds the sentinel and does not hold the marker. */
  predicate Clears(line: string) {
    Contains(line, Sentinel) && !Contains(line, Marker)
  }

  /* `l` does not hold the character `c`. */
  predicate Avoids(l: string, c: char) {
    forall k :: 0 <= k < |l| ==> l[k] != c
  }

  /* A source line of the block: no newline in it, and no marker once its newline is added. */
  predicate SafeLine(l: string) {
    Avoids(l, '\n') && !Contains(l + "\n", Marker)
  }

  /* A line shorter than the marker cannot hold it. */
  lemma NoMarkerInShortLine(line: string)
    requires |line| < |Marker|
    ensures !Contains(line, Marker)
  {
  }

  /* No line without the letter `S` holds the marker. */
  lemma NoMarkerWithoutS(line: string)
    requires Avoids(line, 'S')
    ensures !Contains(line, Marker)
  {
    if Contains(line, Marker) {
      ContainsFirstChar(line, Marker);
    }
  }

  /* The three source lines of the block that are longer than the marker lack its first letter. */
  lemma LongLinesLackS()
    ensures Avoids(RenewChapter[4], 'S')
    ensures Avoids(MakeChapterHead[2], 'S')
    ensures Avoids(MakeSChapterHead[2], 'S')
  {
    assert Avoids(@"    {\raggedright ", 'S') && Avoids(@"\reset@font \Huge ", 'S');
    assert Avoids(@"\bfseries \thechapter ", 'S') && Avoids(@"\quad #1}", 'S');
    assert Avoids(@"\bfseries #1}", 'S');
  }

  /* A newline added to a line without `c` leaves it without `c`. */
  lemma AvoidsWithNewline(l: string, c: char)
    requires Avoids(l, c) && c != '\n'
    ensures Avoids(l + "\n", c)
  {
    assert forall k :: 0 <= k < |l| ==> (l + "\n")[k] == l[k];
  }

  lemma PreambleLinesAreSafe()
    ensures forall i :: 0 <= i < |Preamble| ==> SafeLine(Preamble[i])
  {
    assert Avoids(Preamble[0], '\n');
    assert Avoids(Preamble[1], '\n');
    assert forall i :: 0 <= i < |Preamble| ==> |Preamble[i] + "\n"| < |Marker|;
    forall i | 0 <= i < |Preamble|
      ensures !Contains(Preamble[i] + "\n", Marker)
    {
      NoMarkerInShortLine(Preamble[i] + "\n");
    }
  }

  lemma RenewChapterLinesAreSafe()
    ensures forall i :: 0 <= i < |RenewChapter| ==> SafeLine(RenewChapter[i])
  {
    assert Avoids(RenewChapter[0], '\n');
    assert Avoids(RenewChapter[1], '\n');
    assert Avoids(RenewChapter[2], '\n');
    assert Avoids(RenewChapter[3], '\n');
    assert Avoids(RenewChapter[4], '\n');
    assert Avoids(RenewChapter[5], '\n');
    assert forall i :: 0 <= i < |RenewChapter| && i != 4 ==> |RenewChapter[i] + "\n"| < |Marker|;
    LongLinesLackS();
    forall i | 0 <= i < |RenewChapter|
      ensures !Contains(RenewChapter[i] + "\n", Marker)
    {
      if i == 4 {
        AvoidsWithNewline(RenewChapter[i], 'S');
        NoMarkerWithoutS(RenewChapter[i] + "\n");
      } else {
        NoMarkerInShortLine(RenewChapter[i] + "\n");
      }
    }
  }

  lemma MakeChapterHeadLinesAreSafe()
    ensures forall i :: 0 <= i < |MakeChapterHead| ==> SafeLine(MakeChapterHead[i])
  {
    assert Avoids(MakeChapterHead[0], '\n');
    assert Avoids(MakeChapterHead[1], '\n');
    assert Avoids(MakeChapterHead[2], '\n');
    assert Avoids(MakeChapterHead[3], '\n');
    assert Avoids(MakeChapterHead[4], '\n');
    assert Avoids(MakeChapterHead[5], '\n');
    assert Avoids(MakeChapterHead[6], '\n');
    assert Avoids(MakeChapterHead[7], '\n');
    assert forall i :: 0 <= i < |MakeChapterHead| && i != 2 ==> |MakeChapterHead[i] + "\n"| < |Marker|;
    LongLinesLackS();
    forall i | 0 <= i < |MakeChapterHead|
      ensures !Contains(MakeChapterHead[i] + "\n", Marker)
    {
      if i == 2 {
        AvoidsWithNewline(MakeChapterHead[i], 'S');
        NoMarkerWithoutS(MakeChapterHead[i] + "\n");
      } else {
        NoMarkerInShortLine(MakeChapterHead[i] + "\n");
      }
    }
  }

  lemma MakeSChapterHeadLinesAreSafe()
    ensures forall i :: 0 <= i < |MakeSChapterHead| ==> SafeLine(MakeSChapterHead[i])
  {
    assert Avoids(MakeSChapterHead[0], '\n');
    assert Avoids(MakeSChapterHead[1], '\n');
    assert Avoids(MakeSChapterHead[2], '\n');
    assert Avoids(MakeSChapterHead[3], '\n');
    assert Avoids(MakeSChapterHead[4], '\n');
    assert Avoids(MakeSChapterHead[5], '\n');
    assert Avoids(MakeSChapterHead[6], '\n');
    assert Avoids(MakeSChapterHead[7], '\n');
    assert forall i :: 0 <= i < |MakeSChapterHead| && i != 2 ==> |MakeSChapterHead[i] + "\n"| < |Marker|;
    LongLinesLackS();
    forall i | 0 <= i < |MakeSChapterHead|
      ensures !Contains(MakeSChapterHead[i] + "\n", Marker)
    {
      if i == 2 {
        AvoidsWithNewline(MakeSChapterHead[i], 'S');
        NoMarkerWithoutS(MakeSChapterHead[i] + "\n");
      } else {
        NoMarkerInShortLine(MakeSChapterHead[i] + "\n");
      }
    }
  }

  /* Every source line of the block is free of newlines and, with its newline, of the marker. */
  lemma BlockTextIsSafe()
    ensures forall i :: 0 <= i < |BlockText| ==> SafeLine(BlockText[i])
  {
    PreambleLinesAreSafe();
    RenewChapterLinesAreSafe();
    MakeChapterHeadLinesAreSafe();
    MakeSChapterHeadLinesAreSafe();
  }

  /* Read back line by line, the block gives exactly its lines. */
  lemma BlockSplitsIntoLines()
    ensures SplitLines(Block) == BlockLines
  {
    BlockTextIsSafe();
    assert WellFormed(BlockLines) by {
      forall i | 0 <= i < |BlockLines|
        ensures IsLine(BlockLines[i]) && EndsWithNewline(BlockLines[i])
      {
        var l := BlockText[i];
        assert BlockLines[i] == l + "\n";
        assert forall k :: 0 <= k < |l| ==> (l + "\n")[k] == l[k];
      }
    }
    SplitJoin(BlockLines);
  }

  lemma BlockStartsWithNewline()
    ensures |Block| > 0 && Block[0] == '\n'
  {
    assert BlockLines[0] == "\n";
  }

  lemma BlockEndsWithNewline()
    ensures EndsWithNewline(Block)
  {
    var n := |BlockLines| - 1;
    assert BlockLines == BlockLines[..n] + [BlockLines[n]];
    JoinAppend(BlockLines[..n], [BlockLines[n]]);
    assert BlockLines[n] == "}\n";
    assert Join([BlockLines[n]]) == BlockLines[n] + Join([]);
  }

  /* The block's `\@makechapterhead` line clears the flag. */
  lemma SentinelLineClears()
    ensures Clears(SentinelLine)
  {
    assert OccursAt(SentinelLine, Sentinel, 6);
    NoMarkerInShortLine(SentinelLine);
  }

  /* Read back line by line, the block holds its `\@makechapterhead` line. */
  lemma BlockHasSentinelLine()
    ensures SentinelLine in SplitLines(Block)
  {
    BlockSplitsIntoLines();
    assert BlockLines[8] == SentinelLine;
  }

  /* No line of the block holds the marker. */
  lemma BlockHasNoMarkerLine()
    ensures forall line :: line in SplitLines(Block) ==> !Contains(line, Marker)
  {
    BlockSplitsIntoLines();
    BlockTextIsSafe();
  }
}
