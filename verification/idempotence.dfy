/**
 Running the patch on its own output changes nothing. The argument is made on
 the text of the class file: once a patched line is written out and the file
 is read back, the block's lines come back as separate lines, and the block's
 `\@makechapterhead` line turns the flag off before any later marker line.
 */
module Idempotence {
  import opened Lines
  import opened ChapterCmds
  import opened Patch

  /* The lines `ls` patched, written out and read back are left unchanged by a second patch. */
  predicate ReadBackQuiet(ls: seq<string>) {
    var back := SplitLines(Join(PatchLines(ls)));
    PatchLines(back) == back
  }

  /* Lines read back from the block, followed by anything, come out unchanged. */
  lemma BlockThenAnythingIsQuiet(rest: seq<string>)
    ensures PatchLines(SplitLines(Block) + rest) == SplitLines(Block) + rest
  {
    var bl := SplitLines(Block);
    var ls := bl + rest;
    BlockHasNoMarkerLine();
    BlockHasSentinelLine();
    SentinelLineClears();
    var c :| 0 <= c < |bl| && bl[c] == SentinelLine;
    assert ls[c] == SentinelLine;
    forall i | 0 <= i < |ls|
      ensures PatchLines(ls)[i] == ls[i]
    {
      if i < |bl| {
        assert ls[i] == bl[i] && bl[i] in bl;
      } else {
        assert !UnmodifiedAt(ls, i);
      }
    }
  }

  /* Writing `x` in front of other lines puts it in front of their text. */
  lemma JoinCons(x: string, r: seq<string>)
    ensures Join([x] + r) == x + Join(r)
  {
    assert ([x] + r)[1..] == r;
  }

  /* A line that neither holds the marker nor clears the flag passes through and leaves the flag on. */
  lemma PatchLinesCons(l: string, r: seq<string>)
    requires !Contains(l, Marker) && !Clears(l)
    ensures PatchLines([l] + r) == [l] + PatchLines(r)
  {
    assert Decide(true, l) == Keep;
    assert ([l] + r)[0] == l && ([l] + r)[1..] == r;
  }

  /* The text written for lines whose first line takes the insertion starts with the block. */
  lemma WrittenAfterInsertion(ls: seq<string>)
    requires ls != [] && Contains(ls[0], Marker)
    ensures Join(PatchLines(ls)) == Block + (ls[0] + Join(PatchLines(ls)[1..]))
  {
    var out := PatchLines(ls);
    var q := out[1..];
    assert out[0] == Expected(ls, 0) == Block + ls[0];
    assert out == [Block + ls[0]] + q;
    JoinCons(Block + ls[0], q);
    assert (Block + ls[0]) + Join(q) == Block + (ls[0] + Join(q));
  }

  /* Case of the first line taking the insertion: the block read back turns the flag off. */
  lemma ReadBackAfterInsertion(ls: seq<string>)
    requires ls != [] && Contains(ls[0], Marker)
    ensures ReadBackQuiet(ls)
  {
    var tail := ls[0] + Join(PatchLines(ls)[1..]);
    WrittenAfterInsertion(ls);
    BlockEndsWithNewline();
    SplitAppend(Block, tail);
    BlockThenAnythingIsQuiet(SplitLines(tail));
  }

  /* Case of a first line that clears the flag: nothing is changed, and the lines read back are the same. */
  lemma ReadBackAfterClear(ls: seq<string>)
    requires WellFormed(ls) && ls != [] && Clears(ls[0])
    ensures ReadBackQuiet(ls)
  {
    AlreadyAlteredUnchanged(ls, 0);
    SplitJoin(ls);
  }

  /* Case of a first line that is kept and leaves the flag on: the rest is read back as before. */
  lemma ReadBackAfterKeep(l: string, r: seq<string>)
    requires IsLine(l) && (r != [] ==> EndsWithNewline(l))
    requires !Contains(l, Marker) && !Clears(l)
    requires ReadBackQuiet(r)
    ensures ReadBackQuiet([l] + r)
  {
    var p := PatchLines(r);
    var s := SplitLines(Join(p));
    calc {
      SplitLines(Join(PatchLines([l] + r)));
    == { PatchLinesCons(l, r); }
      SplitLines(Join([l] + p));
    == { JoinCons(l, p); }
      SplitLines(l + Join(p));
    == { SplitAfterLine(l, Join(p)); }
      [l] + s;
    }
    PatchLinesCons(l, s);
  }

  /* The patched lines of a well-formed file, written out and read back, are left alone by the patch. */
  lemma {:induction false} ReadBackIsQuiet(ls: seq<string>)
    requires WellFormed(ls)
    ensures ReadBackQuiet(ls)
    decreases |ls|
  {
    if ls == [] {
    } else if Contains(ls[0], Marker) {
      ReadBackAfterInsertion(ls);
    } else if Clears(ls[0]) {
      ReadBackAfterClear(ls);
    } else {
      WellFormedTail(ls);
      ReadBackIsQuiet(ls[1..]);
      ReadBackAfterKeep(ls[0], ls[1..]);
      assert ls == [ls[0]] + ls[1..];
    }
  }

  /* Patching the class file a second time leaves it as the first run left it. */
  lemma PatchFileIdempotent(s: string)
    ensures PatchFile(PatchFile(s)) == PatchFile(s)
  {
    var ls := SplitLines(s);
    var t := PatchFile(s);
    assert t == Join(PatchLines(ls));
    ReadBackIsQuiet(ls);
  }

  /* On the line sequence alone the patch is not idempotent: a patched line still holds the marker. */
  lemma LinesNotIdempotent()
    ensures var ls := [Marker + "\n"];
      PatchLines(PatchLines(ls)) != PatchLines(ls)
  {
    var ls := [Marker + "\n"];
    assert OccursAt(Marker + "\n", Marker, 0);
    var once := PatchLines(ls);
    assert once[0] == Block + (Marker + "\n");
    ContainsWithin(Block, Marker + "\n", [], Marker);
    assert Block + (Marker + "\n") + [] == once[0];
    var twice := PatchLines(once);
    assert twice[0] == Block + once[0];
    BlockStartsWithNewline();
    assert |twice[0]| > |once[0]|;
  }
}
