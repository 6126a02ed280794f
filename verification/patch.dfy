/**
 The in-place patch of the generated class file `manual.cls`. Lines are read
 one at a time with a flag `unmodified` that starts true. A line holding the
 marker while the flag is true is emitted with the macro block in front of it;
 otherwise a line holding the sentinel turns the flag off; every line is then
 emitted. The flag is threaded through a recursive function, and the loop of
 the original is also given as a method.
 */
module Patch {
  import opened Lines
  import opened ChapterCmds

  /* Which branch of the per-line rule a line takes. */
  datatype Action = Insert | ClearFlag | Keep

  /* The per-line rule: insertion is tested first, and the sentinel only when insertion is not taken. */
  function Decide(unmodified: bool, line: string): Action {
    if Contains(line, Marker) && unmodified then Insert
    else if Contains(line, Sentinel) then ClearFlag
    else Keep
  }

  function Emit(a: Action, line: string): string {
    if a == Insert then Block + line else line
  }

  function NextFlag(a: Action, unmodified: bool): bool {
    if a == ClearFlag then false else unmodified
  }

  /* The flag's value when line `i` is reached, in closed form: no earlier line cleared it. */
  predicate UnmodifiedAt(lines: seq<string>, i: nat)
    requires i <= |lines|
  {
    forall j :: 0 <= j < i ==> !Clears(lines[j])
  }

  /* Reaching line `i` of `lines` is reaching line `i - 1` of its tail after the first line left the flag on. */
  lemma UnmodifiedAtTail(lines: seq<string>)
    requires lines != []
    ensures forall i :: 0 < i < |lines| ==>
      lines[1..][i - 1] == lines[i] &&
      (UnmodifiedAt(lines, i) <==> !Clears(lines[0]) && UnmodifiedAt(lines[1..], i - 1))
  {
    forall i | 0 < i < |lines|
      ensures UnmodifiedAt(lines, i) <==> !Clears(lines[0]) && UnmodifiedAt(lines[1..], i - 1)
    {
      assert forall j :: 0 < j < i ==> lines[1..][j - 1] == lines[j];
    }
  }

  /* What line `i` must be emitted as, stated without the loop. */
  function Expected(lines: seq<string>, i: nat): string
    requires i < |lines|
  {
    if Contains(lines[i], Marker) && UnmodifiedAt(lines, i) then Block + lines[i] else lines[i]
  }

  /* One step of the loop moves the flag exactly as the closed form says. */
  lemma NextFlagClosedForm(unmodified: bool, line: string)
    ensures NextFlag(Decide(unmodified, line), unmodified) == (unmodified && !Clears(line))
  {
  }

  /* The flag after all of `lines` have been read, starting from `unmodified`. */
  function FlagAfter(unmodified: bool, lines: seq<string>): (r: bool)
    ensures r == (unmodified && UnmodifiedAt(lines, |lines|))
    decreases |lines|
  {
    if lines == [] then unmodified
    else
      var next := NextFlag(Decide(unmodified, lines[0]), unmodified);
      NextFlagClosedForm(unmodified, lines[0]);
      UnmodifiedAtTail(lines);
      FlagAfter(next, lines[1..])
  }

  /* The lines emitted for `lines` when the flag stands at `unmodified` on reaching the first one. */
  function PatchFrom(unmodified: bool, lines: seq<string>): (out: seq<string>)
    ensures |out| == |lines|
    ensures forall i :: 0 <= i < |lines| ==>
      out[i] == if unmodified && Contains(lines[i], Marker) && UnmodifiedAt(lines, i) then Block + lines[i] else lines[i]
    decreases |lines|
  {
    if lines == [] then []
    else
      var a := Decide(unmodified, lines[0]);
      var rest := PatchFrom(NextFlag(a, unmodified), lines[1..]);
      NextFlagClosedForm(unmodified, lines[0]);
      UnmodifiedAtTail(lines);
      [Emit(a, lines[0])] + rest
  }

  /* The patch of the whole class file as a sequence of lines: the flag starts true. */
  function PatchLines(lines: seq<string>): (out: seq<string>)
    ensures |out| == |lines|
    ensures forall i :: 0 <= i < |lines| ==> out[i] == Expected(lines, i)
  {
    PatchFrom(true, lines)
  }

  /* The patch of the class file's text: split into lines, patch, write the lines back. */
  function PatchFile(s: string): (t: string)
    ensures (forall line :: line in SplitLines(s) ==> !Contains(line, Marker)) ==> t == s
  {
    var lines := SplitLines(s);
    assert forall i :: 0 <= i < |lines| ==> lines[i] in lines;
    assert (forall line :: line in lines ==> !Contains(line, Marker)) ==> PatchLines(lines) == lines;
    Join(PatchLines(lines))
  }

  /* The loop of the original, with the flag as a local variable. */
  method PatchLoop(lines: seq<string>) returns (out: seq<string>)
    ensures |out| == |lines|
    ensures forall i :: 0 <= i < |lines| ==> out[i] == Expected(lines, i)
    ensures out == PatchLines(lines)
  {
    var unmodified := true;
    out := [];
    for i := 0 to |lines|
      invariant |out| == i
      invariant unmodified == UnmodifiedAt(lines, i)
      invariant forall k :: 0 <= k < i ==> out[k] == Expected(lines, k)
    {
      var line := lines[i];
      if Contains(line, Marker) && unmodified {
        line := Block + line;
      } else if Contains(line, Sentinel) {
        unmodified := false;
      }
      out := out + [line];
    }
  }

  /* Once the loop's flag is off it never comes back on. */
  lemma FlagNeverReturns(lines: seq<string>, i: nat, j: nat)
    requires i <= j <= |lines|
    ensures !FlagAfter(true, lines[..i]) ==> !FlagAfter(true, lines[..j])
  {
    assert forall k :: 0 <= k < i ==> lines[..i][k] == lines[..j][k];
  }

  /* While the loop's flag is on, reading line `i` turns it off exactly when that line clears it. */
  lemma FlagOffAtClearingLine(lines: seq<string>, i: nat)
    requires i < |lines| && FlagAfter(true, lines[..i])
    ensures FlagAfter(true, lines[..i + 1]) <==> !Clears(lines[i])
  {
    assert forall k :: 0 <= k < i ==> lines[..i][k] == lines[..i + 1][k];
    assert lines[..i + 1][i] == lines[i];
  }

  /* A line is changed only by insertion, and then the original line is the end of the emitted one. */
  lemma ChangedOnlyByInsertion(lines: seq<string>, i: nat)
    requires i < |lines|
    ensures var out := PatchLines(lines)[i];
      out == lines[i] || (Contains(lines[i], Marker) && out == Block + lines[i])
    ensures var out := PatchLines(lines)[i];
      |out| >= |lines[i]| && out[|out| - |lines[i]|..] == lines[i]
  {
    var out := PatchLines(lines)[i];
    if out != lines[i] {
      assert out == Block + lines[i];
      assert out[|Block|..] == lines[i];
    }
  }

  /* A line without the marker is emitted unchanged. */
  lemma MarkerFreeLineUnchanged(lines: seq<string>, i: nat)
    requires i < |lines| && !Contains(lines[i], Marker)
    ensures PatchLines(lines)[i] == lines[i]
  {
  }

  /* Every marker line before the first clearing line is patched, not only the first. */
  lemma EveryMarkerBeforeClearIsPatched(lines: seq<string>, i: nat)
    requires i < |lines| && Contains(lines[i], Marker)
    requires forall j :: 0 <= j < i ==> !Clears(lines[j])
    ensures PatchLines(lines)[i] == Block + lines[i]
  {
  }

  /* The lines come out unchanged exactly when every marker line has a clearing line before it. */
  lemma UnchangedIff(lines: seq<string>)
    ensures PatchLines(lines) == lines <==>
      forall i :: 0 <= i < |lines| && Contains(lines[i], Marker) ==>
        exists j :: 0 <= j < i && Clears(lines[j])
  {
    var out := PatchLines(lines);
    BlockStartsWithNewline();
    if out == lines {
      forall i | 0 <= i < |lines| && Contains(lines[i], Marker)
        ensures exists j :: 0 <= j < i && Clears(lines[j])
      {
        assert out[i] == lines[i];
      }
    } else {
      var i :| 0 <= i < |lines| && out[i] != lines[i];
      assert Contains(lines[i], Marker) && UnmodifiedAt(lines, i);
    }
  }

  /* Without a marker line the class file's lines are emitted unchanged. */
  lemma NoMarkerNoChange(lines: seq<string>)
    requires forall i :: 0 <= i < |lines| ==> !Contains(lines[i], Marker)
    ensures PatchLines(lines) == lines
  {
  }

  /* A file whose marker lines all follow a clearing line (one patched by an earlier run) is left alone. */
  lemma AlreadyAlteredUnchanged(lines: seq<string>, c: nat)
    requires c < |lines| && Clears(lines[c])
    requires forall i :: 0 <= i < |lines| && Contains(lines[i], Marker) ==> c < i
    ensures PatchLines(lines) == lines
  {
    UnchangedIff(lines);
  }
}
