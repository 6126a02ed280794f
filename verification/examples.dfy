/**
 Small class files run through the patch: one marker line, two marker lines,
 and a file that already holds the block.
 */
module Examples {
  import opened Lines
  import opened ChapterCmds
  import opened Patch

  /* The marker line, as the class file holds it. */
  const MarkerLine: string := Marker + "\n"

  lemma MarkerLineHasMarker()
    ensures Contains(MarkerLine, Marker) && !Clears(MarkerLine)
  {
    assert OccursAt(MarkerLine, Marker, 0);
  }

  /* One marker line between two ordinary lines: the block goes in front of it, nothing else changes. */
  lemma SingleMarker()
    ensures PatchLines(["intro\n", MarkerLine, "body\n"]) == ["intro\n", Block + MarkerLine, "body\n"]
  {
    var ls := ["intro\n", MarkerLine, "body\n"];
    MarkerLineHasMarker();
    NoMarkerInShortLine("intro\n");
    NoMarkerInShortLine("body\n");
    assert !Contains("intro\n", Sentinel) && !Clears(ls[0]);
    assert UnmodifiedAt(ls, 1);
  }

  /* Two marker lines and no clearing line: both are patched, so the block is inserted twice. */
  lemma TwoMarkers()
    ensures PatchLines([MarkerLine, MarkerLine]) == [Block + MarkerLine, Block + MarkerLine]
  {
    var ls := [MarkerLine, MarkerLine];
    MarkerLineHasMarker();
    assert UnmodifiedAt(ls, 1);
  }

  /* A class file that already holds the `\@makechapterhead` line is left as it is. */
  lemma AlreadyPatched()
    ensures PatchLines([SentinelLine, MarkerLine]) == [SentinelLine, MarkerLine]
  {
    var ls := [SentinelLine, MarkerLine];
    SentinelLineClears();
    MarkerLineHasMarker();
    AlreadyAlteredUnchanged(ls, 0);
  }
}
